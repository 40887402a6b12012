/** The free list of memorylab/kr_malloc.c and memorylab/umalloc.c as a value:
    blocks of header-sized units in address order, with the empty block `base`
    among them, and what freeing and allocating do to it. */
module FreeList {

  type uint32 = x: int | 0 <= x < 0x1_0000_0000

  /** `size` units starting at `addr`; the first one is the header. */
  datatype Block = Block(addr: int, size: nat)

  function End(b: Block): int {
    b.addr + b.size
  }

  predicate Within(b: Block, u: int) {
    b.addr <= u < End(b)
  }

  function UnitsOf(b: Block): (s: set<int>)
    ensures forall u :: u in s <==> b.addr <= u < End(b)
  {
    set u | b.addr <= u < End(b) && Within(b, u)
  }

  ghost function FreeUnits(fl: seq<Block>): set<int> {
    set i, u | 0 <= i < |fl| && u in UnitsOf(fl[i]) :: u
  }

  /** `b` ends before `c` starts, with at least one unit between them. */
  predicate Before(b: Block, c: Block) {
    End(b) < c.addr
  }

  ghost predicate Ascending(fl: seq<Block>) {
    forall i, j {:trigger Before(fl[i], fl[j])} :: 0 <= i < j < |fl| ==> Before(fl[i], fl[j])
  }

  /** `base`, and no other block, is empty. */
  ghost predicate AllProper(fl: seq<Block>, base: int) {
    forall i :: 0 <= i < |fl| ==> 0 < fl[i].addr && (fl[i].size == 0 <==> fl[i].addr == base)
  }

  /** Ascending, disjoint, coalesced, with `base` as the only empty block. */
  ghost predicate Ordered(fl: seq<Block>, base: int) {
    Ascending(fl) && AllProper(fl, base) && Block(base, 0) in fl
  }

  // ---------- the list is determined by its units ----------

  lemma FreeAt(fl: seq<Block>, i: nat, u: int)
    requires i < |fl| && u in UnitsOf(fl[i])
    ensures u in FreeUnits(fl)
  {
  }

  /** Every block is a maximal run of free units. */
  lemma BlockIsMaximalRun(fl: seq<Block>, base: int, i: nat)
    requires Ordered(fl, base) && i < |fl| && fl[i].size > 0
    ensures UnitsOf(fl[i]) <= FreeUnits(fl)
    ensures fl[i].addr - 1 !in FreeUnits(fl) && End(fl[i]) !in FreeUnits(fl)
  {
    forall j | 0 <= j < |fl| ensures fl[i].addr - 1 !in UnitsOf(fl[j]) && End(fl[i]) !in UnitsOf(fl[j]) {
      if j < i {
        assert Before(fl[j], fl[i]);
      } else if i < j {
        assert Before(fl[i], fl[j]);
      }
    }
  }

  /** A maximal run of free units is a block. */
  lemma MaximalRunIsBlock(fl: seq<Block>, base: int, b: Block)
    requires Ordered(fl, base) && b.size > 0 && UnitsOf(b) <= FreeUnits(fl)
    requires b.addr - 1 !in FreeUnits(fl) && End(b) !in FreeUnits(fl)
    ensures b in fl
  {
    assert b.addr in UnitsOf(b);
    var i :| 0 <= i < |fl| && b.addr in UnitsOf(fl[i]);
    if fl[i].addr < b.addr {
      FreeAt(fl, i, b.addr - 1);
    }
    if End(b) < End(fl[i]) {
      FreeAt(fl, i, End(b));
    }
    if End(fl[i]) < End(b) {
      assert End(fl[i]) in UnitsOf(b);
      BlockIsMaximalRun(fl, base, i);
    }
    assert fl[i] == b;
  }

  lemma SameBlocks(fl: seq<Block>, gl: seq<Block>, base: int)
    requires Ordered(fl, base) && Ordered(gl, base) && FreeUnits(fl) == FreeUnits(gl)
    ensures forall b :: b in fl ==> b in gl
  {
    forall b | b in fl ensures b in gl {
      var i :| 0 <= i < |fl| && fl[i] == b;
      if b.size > 0 {
        BlockIsMaximalRun(fl, base, i);
        MaximalRunIsBlock(gl, base, b);
      }
    }
  }

  lemma HasBlock(gl: seq<Block>)
    requires gl != []
    ensures exists b :: b in gl
  {
    assert gl[0] in gl;
  }

  lemma {:induction false} AscendingUnique(fl: seq<Block>, gl: seq<Block>)
    requires Ascending(fl) && Ascending(gl)
    requires forall b :: b in fl <==> b in gl
    ensures fl == gl
  {
    if fl == [] {
      if gl != [] {
        HasBlock(gl);
      }
    } else {
      assert fl[0] in gl;
      assert gl[0] in fl;
      var i :| 0 <= i < |gl| && gl[i] == fl[0];
      var j :| 0 <= j < |fl| && fl[j] == gl[0];
      assert i > 0 ==> Before(gl[0], gl[i]);
      assert j > 0 ==> Before(fl[0], fl[j]);
      assert i == 0;
      forall b ensures b in fl[1..] <==> b in gl[1..] {
        RestWithout(fl, b);
        RestWithout(gl, b);
      }
      AscendingUnique(fl[1..], gl[1..]);
    }
  }

  lemma RestWithout(fl: seq<Block>, b: Block)
    requires Ascending(fl) && fl != []
    ensures b in fl[1..] <==> b in fl && b != fl[0]
  {
    forall i | 1 <= i < |fl| ensures fl[i] != fl[0] {
      assert Before(fl[0], fl[i]);
    }
  }

  /** The free list depends only on which units are free. */
  lemma Canonical(fl: seq<Block>, gl: seq<Block>, base: int)
    requires Ordered(fl, base) && Ordered(gl, base) && FreeUnits(fl) == FreeUnits(gl)
    ensures fl == gl
  {
    SameBlocks(fl, gl, base);
    SameBlocks(gl, fl, base);
    AscendingUnique(fl, gl);
  }

  // ---------- freeing ----------

  /** `b` belongs between the blocks before and from index `k`. */
  ghost predicate Slot(fl: seq<Block>, k: nat, b: Block) {
    && k <= |fl|
    && (forall i :: 0 <= i < k ==> fl[i].addr < b.addr)
    && (forall i :: k <= i < |fl| ==> b.addr < fl[i].addr)
  }

  /** `b` is free to be put into the list: it overlaps no block and does not touch `base`. */
  ghost predicate Insertable(fl: seq<Block>, base: int, b: Block) {
    && 0 < b.addr && 0 < b.size && UnitsOf(b) !! FreeUnits(fl)
    && !Within(b, base) && End(b) != base
  }

  /** The upper part of the list with `b` in front, merged if they touch. */
  function JoinUpper(b: Block, upper: seq<Block>): seq<Block> {
    if upper != [] && End(b) == upper[0].addr then [Block(b.addr, b.size + upper[0].size)] + upper[1..]
    else [b] + upper
  }

  /** The lower part of the list followed by `upper`, merged if they touch. */
  function JoinLower(lower: seq<Block>, upper: seq<Block>): seq<Block>
    requires upper != []
  {
    if lower != [] && End(lower[|lower| - 1]) == upper[0].addr then
      var p := lower[|lower| - 1];
      lower[..|lower| - 1] + [Block(p.addr, p.size + upper[0].size)] + upper[1..]
    else lower + upper
  }

  function Insert(fl: seq<Block>, k: nat, b: Block): seq<Block>
    requires k <= |fl|
  {
    JoinLower(fl[..k], JoinUpper(b, fl[k..]))
  }

  /** Disjointness and the slot give the order of `b` against its neighbours. */
  lemma SlotBounds(fl: seq<Block>, base: int, k: nat, b: Block)
    requires Ordered(fl, base) && Slot(fl, k, b) && Insertable(fl, base, b)
    ensures forall i :: 0 <= i < k ==> End(fl[i]) <= b.addr
    ensures forall i :: k <= i < |fl| ==> End(b) <= fl[i].addr
    ensures k < |fl| && End(b) == fl[k].addr ==> fl[k].size > 0
    ensures k > 0 && End(fl[k - 1]) == b.addr ==> fl[k - 1].size > 0
  {
    assert b.addr in UnitsOf(b);
    forall i | 0 <= i < k ensures End(fl[i]) <= b.addr {
      if End(fl[i]) > b.addr {
        FreeAt(fl, i, b.addr);
      }
    }
    forall i | k <= i < |fl| ensures End(b) <= fl[i].addr {
      assert End(b) > fl[i].addr ==> fl[i].addr in UnitsOf(b);
      if fl[i].size > 0 {
        FreeAt(fl, i, fl[i].addr);
      }
    }
  }

  lemma JoinUpperAscending(b: Block, upper: seq<Block>)
    requires Ascending(upper)
    requires upper != [] ==> End(b) <= upper[0].addr
    ensures Ascending(JoinUpper(b, upper))
  {
    var gl := JoinUpper(b, upper);
    forall i, j | 0 <= i < j < |gl| ensures Before(gl[i], gl[j]) {
      if upper != [] && End(b) == upper[0].addr {
        assert Before(upper[i], upper[j]);
      } else if i > 0 {
        assert Before(upper[i - 1], upper[j - 1]);
      } else if j > 1 {
        assert Before(upper[0], upper[j - 1]);
      }
    }
  }

  lemma JoinLowerAscending(lower: seq<Block>, upper: seq<Block>)
    requires Ascending(lower) && Ascending(upper) && upper != []
    requires lower != [] ==> End(lower[|lower| - 1]) <= upper[0].addr
    ensures Ascending(JoinLower(lower, upper))
  {
    var n := |lower| - 1;
    if lower != [] && End(lower[n]) == upper[0].addr {
      var p := lower[n];
      var c := Block(p.addr, p.size + upper[0].size);
      forall i | 0 <= i < n ensures Before(lower[i], c) {
        assert Before(lower[i], p);
      }
      forall j | 1 <= j < |upper| ensures Before(c, upper[j]) {
        assert Before(upper[0], upper[j]);
      }
      AppendAscending(lower[..n], [c]);
      AppendAscending(lower[..n] + [c], upper[1..]);
    } else {
      AppendAscending(lower, upper);
    }
  }

  /** Two ascending lists in order make one. */
  lemma AppendAscending(a: seq<Block>, b: seq<Block>)
    requires Ascending(a) && Ascending(b)
    requires a != [] && b != [] ==> Before(a[|a| - 1], b[0])
    ensures Ascending(a + b)
  {
    var c := a + b;
    forall i, j | 0 <= i < j < |c| ensures Before(c[i], c[j]) {
      if j < |a| {
        assert Before(a[i], a[j]);
      } else if i >= |a| {
        assert Before(b[i - |a|], b[j - |a|]);
      } else {
        assert i == |a| - 1 || Before(a[i], a[|a| - 1]);
        assert j == |a| || Before(b[0], b[j - |a|]);
      }
    }
  }

  lemma JoinProper(lower: seq<Block>, b: Block, upper: seq<Block>, base: int)
    requires AllProper(lower, base) && AllProper([b], base) && AllProper(upper, base) && b.size > 0
    requires lower != [] && End(lower[|lower| - 1]) == b.addr ==> lower[|lower| - 1].size > 0
    ensures AllProper(JoinUpper(b, upper), base)
    ensures AllProper(JoinLower(lower, JoinUpper(b, upper)), base)
  {
    assert [b][0] == b;
    var up := JoinUpper(b, upper);
    assert AllProper(up, base) && up[0].addr == b.addr;
  }

  /** `base` is never merged away. */
  lemma InsertKeepsBase(fl: seq<Block>, base: int, k: nat, b: Block)
    requires Ordered(fl, base) && Slot(fl, k, b) && Insertable(fl, base, b)
    ensures Block(base, 0) in Insert(fl, k, b)
  {
    SlotBounds(fl, base, k, b);
    var upper, e := JoinUpper(b, fl[k..]), Block(base, 0);
    var m :| 0 <= m < |fl| && fl[m] == e;
    if m < k {
      assert fl[..k][m] == e;
      InLower(fl[..k], upper, e);
    } else {
      assert upper[|upper| - (|fl| - m)] == e;
      InUpper(fl[..k], upper, e);
    }
  }

  lemma InUpper(lower: seq<Block>, upper: seq<Block>, e: Block)
    requires e in upper && (e == upper[0] ==> e.size == 0)
    requires upper[0].size > 0
    ensures e in JoinLower(lower, upper)
  {
    var i :| 0 <= i < |upper| && upper[i] == e;
    var gl := JoinLower(lower, upper);
    assert i > 0;
    assert gl[|gl| - |upper| + i] == e;
  }

  lemma InLower(lower: seq<Block>, upper: seq<Block>, e: Block)
    requires e in lower && upper != []
    requires End(lower[|lower| - 1]) == upper[0].addr ==> e != lower[|lower| - 1]
    ensures e in JoinLower(lower, upper)
  {
    var i :| 0 <= i < |lower| && lower[i] == e;
    assert JoinLower(lower, upper)[i] == e;
  }

  lemma InsertOrdered(fl: seq<Block>, base: int, k: nat, b: Block)
    requires Ordered(fl, base) && Slot(fl, k, b) && Insertable(fl, base, b)
    ensures Ordered(Insert(fl, k, b), base)
  {
    SlotBounds(fl, base, k, b);
    InsertKeepsBase(fl, base, k, b);
    var lower, upper := fl[..k], fl[k..];
    assert Ascending(lower) && Ascending(upper) && AllProper(lower, base) && AllProper(upper, base);
    InsertPieces(lower, b, upper, base);
  }

  lemma InsertPieces(lower: seq<Block>, b: Block, upper: seq<Block>, base: int)
    requires Ascending(lower) && Ascending(upper) && AllProper(lower, base) && AllProper(upper, base)
    requires 0 < b.addr && 0 < b.size && b.addr != base
    requires lower != [] ==> End(lower[|lower| - 1]) <= b.addr
    requires lower != [] && End(lower[|lower| - 1]) == b.addr ==> lower[|lower| - 1].size > 0
    requires upper != [] ==> End(b) <= upper[0].addr
    ensures Ascending(JoinLower(lower, JoinUpper(b, upper))) && AllProper(JoinLower(lower, JoinUpper(b, upper)), base)
  {
    JoinProper(lower, b, upper, base);
    JoinUpperAscending(b, upper);
    JoinLowerAscending(lower, JoinUpper(b, upper));
  }

  lemma InsertUnits(fl: seq<Block>, base: int, k: nat, b: Block)
    requires Ordered(fl, base) && Slot(fl, k, b) && Insertable(fl, base, b)
    ensures FreeUnits(Insert(fl, k, b)) == FreeUnits(fl) + UnitsOf(b)
  {
    JoinUpperUnits(b, fl[k..]);
    JoinLowerUnits(fl[..k], JoinUpper(b, fl[k..]));
    AppendUnits(fl[..k], fl[k..]);
    assert fl == fl[..k] + fl[k..];
  }

  lemma AppendUnits(a: seq<Block>, b: seq<Block>)
    ensures FreeUnits(a + b) == FreeUnits(a) + FreeUnits(b)
  {
    forall u | u in FreeUnits(a) + FreeUnits(b) ensures u in FreeUnits(a + b) {
      if u in FreeUnits(a) {
        var i :| 0 <= i < |a| && u in UnitsOf(a[i]);
        FreeAt(a + b, i, u);
      } else {
        var i :| 0 <= i < |b| && u in UnitsOf(b[i]);
        assert (a + b)[|a| + i] == b[i];
        FreeAt(a + b, |a| + i, u);
      }
    }
    forall u | u in FreeUnits(a + b) ensures u in FreeUnits(a) + FreeUnits(b) {
      var i :| 0 <= i < |a + b| && u in UnitsOf((a + b)[i]);
      if i < |a| {
        FreeAt(a, i, u);
      } else {
        FreeAt(b, i - |a|, u);
      }
    }
  }

  lemma OneUnits(b: Block)
    ensures FreeUnits([b]) == UnitsOf(b)
  {
    forall u | u in UnitsOf(b) ensures u in FreeUnits([b]) {
      FreeAt([b], 0, u);
    }
  }

  lemma JoinUpperUnits(b: Block, upper: seq<Block>)
    ensures FreeUnits(JoinUpper(b, upper)) == UnitsOf(b) + FreeUnits(upper)
  {
    if upper != [] && End(b) == upper[0].addr {
      var c := Block(b.addr, b.size + upper[0].size);
      OneUnits(c);
      OneUnits(upper[0]);
      AppendUnits([c], upper[1..]);
      AppendUnits([upper[0]], upper[1..]);
      assert upper == [upper[0]] + upper[1..];
      assert UnitsOf(c) == UnitsOf(b) + UnitsOf(upper[0]);
    } else {
      OneUnits(b);
      AppendUnits([b], upper);
    }
  }

  lemma JoinLowerUnits(lower: seq<Block>, upper: seq<Block>)
    requires upper != []
    ensures FreeUnits(JoinLower(lower, upper)) == FreeUnits(lower) + FreeUnits(upper)
  {
    var n := |lower| - 1;
    if lower != [] && End(lower[n]) == upper[0].addr {
      MergeUnits(lower[..n], lower[n], upper[0], upper[1..]);
      assert lower == lower[..n] + [lower[n]] && upper == [upper[0]] + upper[1..];
    } else {
      AppendUnits(lower, upper);
    }
  }

  lemma MergeUnits(a: seq<Block>, p: Block, q: Block, b: seq<Block>)
    requires End(p) == q.addr
    ensures FreeUnits(a + [Block(p.addr, p.size + q.size)] + b) == FreeUnits(a + [p]) + FreeUnits([q] + b)
  {
    var c := Block(p.addr, p.size + q.size);
    OneUnits(c);
    OneUnits(p);
    OneUnits(q);
    AppendUnits(a + [c], b);
    AppendUnits(a, [c]);
    AppendUnits(a, [p]);
    AppendUnits([q], b);
    assert UnitsOf(c) == UnitsOf(p) + UnitsOf(q);
  }

  // ---------- allocating ----------

  /** Block `f` gives up its last `n` units; if those are all it has, it leaves the list. */
  function Allocate(fl: seq<Block>, f: nat, n: nat): seq<Block>
    requires f < |fl| && n <= fl[f].size
  {
    if fl[f].size == n then fl[..f] + fl[f + 1..]
    else fl[f := Block(fl[f].addr, fl[f].size - n)]
  }

  /** The units given out. */
  function Taken(fl: seq<Block>, f: nat, n: nat): Block
    requires f < |fl| && n <= fl[f].size
  {
    Block(End(fl[f]) - n, n)
  }

  lemma AllocateOrdered(fl: seq<Block>, base: int, f: nat, n: nat)
    requires Ordered(fl, base) && f < |fl| && 0 < n <= fl[f].size
    ensures Ordered(Allocate(fl, f, n), base)
  {
    var gl := Allocate(fl, f, n);
    var m :| 0 <= m < |fl| && fl[m] == Block(base, 0);
    assert m != f;
    if m < f {
      assert gl[m] == fl[m];
    } else {
      assert gl[|gl| - (|fl| - m)] == fl[m];
    }
    if fl[f].size != n {
      assert forall i :: 0 <= i < |fl| ==> gl[i].addr == fl[i].addr && End(gl[i]) <= End(fl[i]);
      forall i, j | 0 <= i < j < |gl| ensures Before(gl[i], gl[j]) {
        assert Before(fl[i], fl[j]);
      }
    } else {
      forall i, j | 0 <= i < j < |gl| ensures Before(gl[i], gl[j]) {
        assert Before(fl[if i < f then i else i + 1], fl[if j < f then j else j + 1]);
      }
    }
  }

  lemma AllocateUnits(fl: seq<Block>, base: int, f: nat, n: nat)
    requires Ordered(fl, base) && f < |fl| && 0 < n <= fl[f].size
    ensures FreeUnits(Allocate(fl, f, n)) == FreeUnits(fl) - UnitsOf(Taken(fl, f, n))
    ensures UnitsOf(Taken(fl, f, n)) <= FreeUnits(fl)
  {
    var b, t, rest := fl[f], Taken(fl, f, n), Block(fl[f].addr, fl[f].size - n);
    assert fl == fl[..f] + [b] + fl[f + 1..];
    AppendUnits(fl[..f] + [b], fl[f + 1..]);
    AppendUnits(fl[..f], [b]);
    OneUnits(b);
    assert UnitsOf(b) == UnitsOf(rest) + UnitsOf(t);
    OthersApart(fl, base, f);
    if b.size == n {
      AppendUnits(fl[..f], fl[f + 1..]);
    } else {
      assert Allocate(fl, f, n) == fl[..f] + [rest] + fl[f + 1..];
      AppendUnits(fl[..f] + [rest], fl[f + 1..]);
      AppendUnits(fl[..f], [rest]);
      OneUnits(rest);
    }
  }

  lemma OthersApart(fl: seq<Block>, base: int, f: nat)
    requires Ordered(fl, base) && f < |fl|
    ensures FreeUnits(fl[..f]) !! UnitsOf(fl[f]) && FreeUnits(fl[f + 1..]) !! UnitsOf(fl[f])
  {
    forall i | 0 <= i < f ensures UnitsOf(fl[i]) !! UnitsOf(fl[f]) {
      assert Before(fl[i], fl[f]);
    }
    var rest := fl[f + 1..];
    forall i | 0 <= i < |rest| ensures UnitsOf(rest[i]) !! UnitsOf(fl[f]) {
      assert rest[i] == fl[f + 1 + i];
      assert Before(fl[f], fl[f + 1 + i]);
    }
  }

  /** Freeing what was just allocated restores the list, for exact fit and tail split alike. */
  lemma FreeUndoesAllocate(fl: seq<Block>, base: int, f: nat, n: nat, k: nat)
    requires Ordered(fl, base) && f < |fl| && 0 < n <= fl[f].size
    requires Slot(Allocate(fl, f, n), k, Taken(fl, f, n))
    ensures Insertable(Allocate(fl, f, n), base, Taken(fl, f, n))
    ensures Insert(Allocate(fl, f, n), k, Taken(fl, f, n)) == fl
  {
    var gl, t := Allocate(fl, f, n), Taken(fl, f, n);
    AllocateOrdered(fl, base, f, n);
    AllocateUnits(fl, base, f, n);
    var m :| 0 <= m < |fl| && fl[m] == Block(base, 0);
    assert if m < f then Before(fl[m], fl[f]) else Before(fl[f], fl[m]);
    InsertOrdered(gl, base, k, t);
    InsertUnits(gl, base, k, t);
    Canonical(Insert(gl, k, t), fl, base);
  }
}
