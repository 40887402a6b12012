/** The allocator's state seen from outside: which units it got from the system,
    which blocks are live, and the free list; and what each operation does to it. */
module HeapState {
  import opened FreeList

  const LIMIT: nat := 0x1_0000_0000

  /** `live` maps the header of each block handed out to its size. */
  datatype State = State(owned: set<int>, live: map<int, nat>, fl: seq<Block>)

  ghost function LiveUnits(live: map<int, nat>): set<int> {
    set a, u | a in live && u in UnitsOf(Block(a, live[a])) :: u
  }

  ghost predicate NoOverlap(live: map<int, nat>, a: int, b: int) {
    a in live && b in live && a != b ==> UnitsOf(Block(a, live[a])) !! UnitsOf(Block(b, live[b]))
  }

  ghost predicate Apart(live: map<int, nat>) {
    forall a, b :: NoOverlap(live, a, b)
  }

  /** Free and live units make up exactly what was obtained; live blocks do not overlap. */
  ghost predicate Consistent(s: State, base: int) {
    && Ordered(s.fl, base)
    && Apart(s.live) && (forall a :: a in s.live ==> s.live[a] > 0)
    && FreeUnits(s.fl) !! LiveUnits(s.live)
    && FreeUnits(s.fl) + LiveUnits(s.live) == s.owned
    && Placed(s.owned, base)
  }

  /** The units obtained are positive addresses away from `base`, and not too many. */
  ghost predicate Placed(owned: set<int>, base: int) {
    && base !in owned && base - 1 !in owned
    && (forall u :: u in owned ==> u > 0)
    && |owned| < LIMIT
  }

  /** A region the system may hand out: new, positive, away from `base`, and not too much in all. */
  ghost predicate FreshRegion(s: State, base: int, r: Block) {
    && r.size > 0 && r.addr > 0 && UnitsOf(r) !! s.owned
    && !Within(r, base) && End(r) != base
    && |s.owned| + r.size < LIMIT
  }

  // ---------- the steps ----------

  /** The last `n` units of block `f` become a live block. */
  ghost function Allocated(s: State, f: nat, n: nat): State
    requires f < |s.fl| && n <= s.fl[f].size
  {
    State(s.owned, s.live[Taken(s.fl, f, n).addr := n], Allocate(s.fl, f, n))
  }

  /** The free list after it goes into slot `k`. */
  function Freed(s: State, a: int, k: nat): State
    requires a in s.live && k <= |s.fl|
  {
    State(s.owned, s.live - {a}, Insert(s.fl, k, Block(a, s.live[a])))
  }

  /** A new region is treated as a live block until it is freed. */
  function Grown(s: State, r: Block): State {
    State(s.owned + UnitsOf(r), s.live[r.addr := r.size], s.fl)
  }

  /** The `n` units at `a`, the tail of some free block, are given out. */
  ghost predicate AllocStep(s: State, t: State, a: int, n: nat) {
    exists f: nat :: f < |s.fl| && 0 < n <= s.fl[f].size && a == Taken(s.fl, f, n).addr && t == Allocated(s, f, n)
  }

  /** The live block at `a` is put back in its slot. */
  ghost predicate FreeStep(s: State, t: State, a: int) {
    a in s.live && exists k: nat :: k <= |s.fl| && Slot(s.fl, k, Block(a, s.live[a])) && t == Freed(s, a, k)
  }

  /** A new region is put into the free list. */
  ghost predicate GrowStep(s: State, t: State, base: int, r: Block) {
    FreshRegion(s, base, r) && FreeStep(Grown(s, r), t, r.addr)
  }

  // ---------- runs ----------

  /** Nothing obtained yet. */
  function Start(base: int): State {
    State({}, map[], [Block(base, 0)])
  }

  /** One call, or the growth within one. */
  ghost predicate Step(s: State, t: State, base: int) {
    || (exists a, n :: AllocStep(s, t, a, n))
    || (exists a :: FreeStep(s, t, a))
    || (exists r :: GrowStep(s, t, base, r))
  }

  ghost predicate Run(run: seq<State>, base: int) {
    && base > 0 && run != [] && run[0] == Start(base)
    && forall i, j :: 0 <= i < |run| && j == i + 1 && j < |run| ==> Step(run[i], run[j], base)
  }

  lemma RunExtended(run: seq<State>, base: int, t: State)
    requires Run(run, base) && Step(run[|run| - 1], t, base)
    ensures Run(run + [t], base)
  {
    hide Step;
    var longer := run + [t];
    forall i, j | 0 <= i < |longer| && j == i + 1 && j < |longer| ensures Step(longer[i], longer[j], base) {
      assert longer[i] == run[i];
      assert j < |run| ==> longer[j] == run[j];
    }
  }

  lemma {:induction false} CountUnits(b: Block)
    ensures |UnitsOf(b)| == b.size
    decreases b.size
  {
    if b.size > 0 {
      var c := Block(b.addr, b.size - 1);
      CountUnits(c);
      assert UnitsOf(b) == UnitsOf(c) + {End(c)};
    } else {
      assert UnitsOf(b) == {};
    }
  }

  lemma SubsetSize(a: set<int>, b: set<int>)
    requires a <= b
    ensures |a| <= |b|
  {
    assert b == a + (b - a);
  }

  lemma LiveIn(live: map<int, nat>, a: int)
    requires a in live
    ensures UnitsOf(Block(a, live[a])) <= LiveUnits(live)
    ensures live[a] > 0 ==> a in LiveUnits(live)
  {
    assert live[a] > 0 ==> a in UnitsOf(Block(a, live[a]));
  }

  lemma LiveWith(live: map<int, nat>, a: int, n: nat)
    requires a !in live
    ensures LiveUnits(live[a := n]) == LiveUnits(live) + UnitsOf(Block(a, n))
  {
    var after := live[a := n];
    assert after[a] == n;
    forall u | u in LiveUnits(live) + UnitsOf(Block(a, n)) ensures u in LiveUnits(after) {
      if u in LiveUnits(live) {
        var b :| b in live && u in UnitsOf(Block(b, live[b]));
        assert b in after && after[b] == live[b];
      } else {
        assert u in UnitsOf(Block(a, after[a]));
      }
    }
  }

  lemma LiveWithout(live: map<int, nat>, a: int)
    requires a in live && Apart(live)
    ensures LiveUnits(live - {a}) == LiveUnits(live) - UnitsOf(Block(a, live[a])) && Apart(live - {a})
  {
    var after := live - {a};
    forall u | u in LiveUnits(after) ensures u in LiveUnits(live) && u !in UnitsOf(Block(a, live[a])) {
      var b :| b in after && u in UnitsOf(Block(b, after[b]));
      assert NoOverlap(live, a, b);
      LiveIn(live, b);
    }
    forall x, y ensures NoOverlap(after, x, y) {
      assert NoOverlap(live, x, y);
    }
    forall u | u in LiveUnits(live) && u !in UnitsOf(Block(a, live[a])) ensures u in LiveUnits(after) {
      var b :| b in live && u in UnitsOf(Block(b, live[b]));
      assert b in after && after[b] == live[b];
      LiveIn(after, b);
    }
  }

  lemma TakenNotLive(s: State, base: int, f: nat, n: nat)
    requires Consistent(s, base) && f < |s.fl| && 0 < n <= s.fl[f].size
    ensures var t := Taken(s.fl, f, n); t.addr !in s.live && UnitsOf(t) !! LiveUnits(s.live) && UnitsOf(t) <= s.owned
  {
    var t := Taken(s.fl, f, n);
    AllocateUnits(s.fl, base, f, n);
    assert t.addr in UnitsOf(t);
    if t.addr in s.live {
      LiveIn(s.live, t.addr);
    }
  }

  lemma AllocKeeps(s: State, base: int, f: nat, n: nat)
    requires Consistent(s, base) && f < |s.fl| && 0 < n <= s.fl[f].size
    ensures Consistent(Allocated(s, f, n), base) && Taken(s.fl, f, n).addr !in s.live
    ensures UnitsOf(Taken(s.fl, f, n)) !! LiveUnits(s.live)
  {
    var t := Taken(s.fl, f, n);
    TakenNotLive(s, base, f, n);
    AllocateOrdered(s.fl, base, f, n);
    AllocateUnits(s.fl, base, f, n);
    LiveWith(s.live, t.addr, n);
    ApartWith(s.live, t);
    AllocUnits(FreeUnits(s.fl), LiveUnits(s.live), UnitsOf(t), s.owned);
  }

  lemma AllocUnits(free: set<int>, live: set<int>, taken: set<int>, owned: set<int>)
    requires free !! live && free + live == owned && taken <= free
    ensures (free - taken) !! (live + taken) && (free - taken) + (live + taken) == owned
  {
  }

  lemma ApartWith(live: map<int, nat>, b: Block)
    requires Apart(live) && UnitsOf(b) !! LiveUnits(live)
    ensures Apart(live[b.addr := b.size])
  {
    var after := live[b.addr := b.size];
    forall x, y ensures NoOverlap(after, x, y) {
      assert NoOverlap(live, x, y);
      if x in live {
        LiveIn(live, x);
      }
      if y in live {
        LiveIn(live, y);
      }
    }
  }

  lemma LiveInsertable(s: State, base: int, a: int)
    requires Consistent(s, base) && a in s.live
    ensures Insertable(s.fl, base, Block(a, s.live[a])) && UnitsOf(Block(a, s.live[a])) <= s.owned
  {
    var b := Block(a, s.live[a]);
    LiveIn(s.live, a);
    assert a in UnitsOf(b);
    assert End(b) - 1 in UnitsOf(b);
  }

  lemma FreeKeeps(s: State, base: int, a: int, k: nat)
    requires Consistent(s, base) && a in s.live && Slot(s.fl, k, Block(a, s.live[a]))
    ensures Consistent(Freed(s, a, k), base)
  {
    var b := Block(a, s.live[a]);
    LiveInsertable(s, base, a);
    InsertOrdered(s.fl, base, k, b);
    InsertUnits(s.fl, base, k, b);
    LiveWithout(s.live, a);
    LiveIn(s.live, a);
    FreeUnitsBalance(FreeUnits(s.fl), LiveUnits(s.live), UnitsOf(b), s.owned);
  }

  lemma FreeUnitsBalance(free: set<int>, live: set<int>, given: set<int>, owned: set<int>)
    requires free !! live && free + live == owned && given <= live
    ensures (free + given) !! (live - given) && (free + given) + (live - given) == owned
  {
  }

  lemma GrowKeeps(s: State, base: int, r: Block)
    requires Consistent(s, base) && FreshRegion(s, base, r)
    ensures Consistent(Grown(s, r), base) && r.addr !in s.live
  {
    FreshHeader(s, base, r);
    LiveWith(s.live, r.addr, r.size);
    ApartWith(s.live, r);
    GrowUnits(FreeUnits(s.fl), LiveUnits(s.live), UnitsOf(r), s.owned);
    GrowPlaced(s, base, r);
  }

  lemma GrowPlaced(s: State, base: int, r: Block)
    requires Placed(s.owned, base) && FreshRegion(s, base, r)
    ensures Placed(s.owned + UnitsOf(r), base)
  {
    CountUnits(r);
    DisjointSize(s.owned, UnitsOf(r));
  }

  lemma GrowUnits(free: set<int>, live: set<int>, more: set<int>, owned: set<int>)
    requires free !! live && free + live == owned && more !! owned
    ensures free !! live + more && free + (live + more) == owned + more && more !! live
  {
  }

  lemma DisjointSize(a: set<int>, b: set<int>)
    requires a !! b
    ensures |a + b| == |a| + |b|
  {
  }

  // ---------- what each step keeps ----------

  lemma AllocStepKeeps(s: State, t: State, base: int, a: int, n: nat)
    requires Consistent(s, base) && AllocStep(s, t, a, n)
    ensures Consistent(t, base) && t.owned == s.owned && t.live == s.live[a := n]
    ensures n > 0 && a !in s.live && UnitsOf(Block(a, n)) !! LiveUnits(s.live)
  {
    var f: nat :| f < |s.fl| && 0 < n <= s.fl[f].size && a == Taken(s.fl, f, n).addr && t == Allocated(s, f, n);
    hide Consistent;
    AllocKeeps(s, base, f, n);
  }

  lemma FreeStepKeeps(s: State, t: State, base: int, a: int)
    requires Consistent(s, base) && FreeStep(s, t, a)
    ensures Consistent(t, base) && t.owned == s.owned && t.live == s.live - {a}
  {
    var k: nat :| k <= |s.fl| && Slot(s.fl, k, Block(a, s.live[a])) && t == Freed(s, a, k);
    hide Consistent;
    FreeKeeps(s, base, a, k);
  }

  lemma GrowStepKeeps(s: State, t: State, base: int, r: Block)
    requires Consistent(s, base) && GrowStep(s, t, base, r)
    ensures Consistent(t, base) && t.owned == s.owned + UnitsOf(r) && t.live == s.live
  {
    hide Consistent;
    GrowKeeps(s, base, r);
    FreeStepKeeps(Grown(s, r), t, base, r.addr);
    PutAndDrop(s.live, r.addr, r.size);
  }

  lemma PutAndDrop(live: map<int, nat>, a: int, n: nat)
    requires a !in live
    ensures live[a := n] - {a} == live
  {
  }

  lemma FreshHeader(s: State, base: int, r: Block)
    requires Consistent(s, base) && FreshRegion(s, base, r)
    ensures r.addr !in s.live && UnitsOf(r) !! LiveUnits(s.live)
    ensures base !in UnitsOf(r) && base - 1 !in UnitsOf(r)
  {
    assert r.addr in UnitsOf(r);
    if r.addr in s.live {
      LiveIn(s.live, r.addr);
    }
  }

  /** Three blocks of one heap never overflow the size field. */
  lemma SizesFit(s: State, base: int, a: int, i: nat, j: nat)
    requires Consistent(s, base) && a in s.live && i < |s.fl| && j < |s.fl|
    requires i == j ==> s.fl[i].size == 0
    ensures s.fl[i].size + s.live[a] + s.fl[j].size < LIMIT
  {
    var b := Block(a, s.live[a]);
    var x, y, z := UnitsOf(s.fl[i]), UnitsOf(b), UnitsOf(s.fl[j]);
    LiveIn(s.live, a);
    CountUnits(s.fl[i]);
    CountUnits(b);
    CountUnits(s.fl[j]);
    assert x <= FreeUnits(s.fl) && z <= FreeUnits(s.fl);
    assert x !! z by {
      if i < j {
        assert Before(s.fl[i], s.fl[j]);
      } else if j < i {
        assert Before(s.fl[j], s.fl[i]);
      }
    }
    assert |x + y + z| == |x| + |y| + |z|;
    SubsetSize(x + y + z, s.owned);
  }

  lemma StartIsConsistent(base: int)
    requires base > 0
    ensures Consistent(Start(base), base)
  {
    var fl := [Block(base, 0)];
    OneUnits(fl[0]);
    assert Block(base, 0) in fl;
  }
}
