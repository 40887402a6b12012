/** The circular free list as it is threaded through memory. */
module FreeChain {
  import opened FreeList

  /** One unit of memory, read as a header. */
  datatype Header = Header(next: int, size: uint32)

  type Memory = map<int, Header>

  function Succ(fl: seq<Block>, i: nat, end: int): int
    requires i < |fl|
  {
    if i + 1 < |fl| then fl[i + 1].addr else end
  }

  /** The header of `b` is in memory and links to `next`. */
  ghost predicate IsHeader(mem: Memory, b: Block, next: int) {
    b.addr in mem && mem[b.addr].size == b.size && mem[b.addr].next == next
  }

  /** Block `i` has its header in memory, linked to the block after it. */
  ghost predicate Linked(mem: Memory, fl: seq<Block>, i: nat, end: int)
    requires i < |fl|
  {
    IsHeader(mem, fl[i], Succ(fl, i, end))
  }

  /** The blocks of `fl` are linked in order, and the last one links to `end`. */
  ghost predicate Chain(mem: Memory, fl: seq<Block>, end: int) {
    forall i :: 0 <= i < |fl| ==> Linked(mem, fl, i, end)
  }

  /** The last block links back to the first. */
  ghost predicate Circular(mem: Memory, fl: seq<Block>) {
    fl != [] && Chain(mem, fl, fl[0].addr)
  }

  function Head(fl: seq<Block>, end: int): int {
    if fl == [] then end else fl[0].addr
  }

  lemma ChainAppend(mem: Memory, a: seq<Block>, b: seq<Block>, end: int)
    ensures Chain(mem, a + b, end) <==> Chain(mem, a, Head(b, end)) && Chain(mem, b, end)
  {
    var c, mid := a + b, Head(b, end);
    if Chain(mem, c, end) {
      forall i | 0 <= i < |a| ensures Linked(mem, a, i, mid) {
        assert Linked(mem, c, i, end);
      }
      forall i | 0 <= i < |b| ensures Linked(mem, b, i, end) {
        assert Linked(mem, c, |a| + i, end);
      }
    }
    if Chain(mem, a, mid) && Chain(mem, b, end) {
      forall i | 0 <= i < |c| ensures Linked(mem, c, i, end) {
        assert if i < |a| then Linked(mem, a, i, mid) else Linked(mem, b, i - |a|, end);
      }
    }
  }

  lemma ChainOne(mem: Memory, b: Block, end: int)
    ensures Chain(mem, [b], end) <==> IsHeader(mem, b, end)
  {
    assert Linked(mem, [b], 0, end) <==> IsHeader(mem, b, end);
  }

  lemma ChainFrame(mem: Memory, mem': Memory, fl: seq<Block>, end: int)
    requires Chain(mem, fl, end)
    requires forall i :: 0 <= i < |fl| && fl[i].addr in mem ==>
          fl[i].addr in mem' && mem'[fl[i].addr] == mem[fl[i].addr]
    ensures Chain(mem', fl, end)
  {
    forall i | 0 <= i < |fl| ensures Linked(mem', fl, i, end) {
      assert Linked(mem, fl, i, end);
    }
  }

  /** Redirecting the last link. */
  lemma ChainRedirect(mem: Memory, mem': Memory, fl: seq<Block>, end: int, end': int)
    requires Chain(mem, fl, end) && fl != []
    requires forall i :: 0 <= i < |fl| - 1 && fl[i].addr in mem ==>
          fl[i].addr in mem' && mem'[fl[i].addr] == mem[fl[i].addr]
    requires IsHeader(mem', fl[|fl| - 1], end')
    ensures Chain(mem', fl, end')
  {
    forall i | 0 <= i < |fl| ensures Linked(mem', fl, i, end') {
      assert Linked(mem, fl, i, end);
    }
  }

  /** The circle at index `i`. */
  lemma LinkAt(mem: Memory, fl: seq<Block>, i: nat)
    requires Circular(mem, fl) && i < |fl|
    ensures IsHeader(mem, fl[i], fl[if i + 1 < |fl| then i + 1 else 0].addr)
  {
    assert Linked(mem, fl, i, fl[0].addr);
  }

  lemma ChainAt(mem: Memory, fl: seq<Block>, end: int, i: nat)
    requires Chain(mem, fl, end) && i < |fl|
    ensures IsHeader(mem, fl[i], Succ(fl, i, end))
  {
    assert Linked(mem, fl, i, end);
  }

  // ---------- freeing ----------

  /** The blocks around slot `k`, in the circle. */
  function PrevIndex(fl: seq<Block>, k: nat): nat
    requires k <= |fl| && fl != []
  {
    if k > 0 then k - 1 else |fl| - 1
  }

  function NextIndex(fl: seq<Block>, k: nat): nat
    requires k <= |fl| && fl != []
  {
    if k < |fl| then k else 0
  }

  /** kr_malloc.c:254-264: link the freed block `b` to `n`, or absorb `n`. */
  function JoinNext(mem: Memory, b: int, n: int): Memory
    requires b in mem && n in mem && mem[b].size + mem[n].size < 0x1_0000_0000
  {
    if b + mem[b].size == n then mem[b := Header(mem[n].next, mem[b].size + mem[n].size)]
    else mem[b := mem[b].(next := n)]
  }

  /** kr_malloc.c:271-281: link `p` to the freed block `b`, or let it absorb `b`. */
  function JoinPrev(mem: Memory, b: int, p: int): Memory
    requires b in mem && p in mem && mem[p].size + mem[b].size < 0x1_0000_0000
  {
    if p + mem[p].size == b then mem[p := Header(mem[b].next, mem[p].size + mem[b].size)]
    else mem[p := mem[p].(next := b)]
  }

  /** `b` can be freed into slot `k`: its header holds its size, and no sum overflows. */
  ghost predicate Freeing(mem: Memory, fl: seq<Block>, base: int, k: nat, b: Block) {
    && Ordered(fl, base) && Circular(mem, fl) && Slot(fl, k, b) && Insertable(fl, base, b)
    && b.addr in mem && mem[b.addr].size == b.size
    && fl[PrevIndex(fl, k)].size + b.size + fl[NextIndex(fl, k)].size < 0x1_0000_0000
  }

  ghost predicate DistinctAddrs(fl: seq<Block>) {
    forall i, j :: 0 <= i < j < |fl| ==> fl[i].addr != fl[j].addr
  }

  ghost predicate Elsewhere(fl: seq<Block>, a: int) {
    forall i :: 0 <= i < |fl| ==> fl[i].addr != a
  }

  lemma OrderedAddrs(fl: seq<Block>)
    requires Ascending(fl)
    ensures DistinctAddrs(fl)
  {
    forall i, j | 0 <= i < j < |fl| ensures fl[i].addr != fl[j].addr {
      assert Before(fl[i], fl[j]);
    }
  }

  lemma LinkUpper(mem: Memory, upper: seq<Block>, first: int, b: Block, n: int)
    requires Chain(mem, upper, first) && Elsewhere(upper, b.addr)
    requires b.addr in mem && mem[b.addr].size == b.size && n == Head(upper, first) && n in mem
    requires mem[b.addr].size + mem[n].size < 0x1_0000_0000
    requires upper == [] ==> End(b) != n
    ensures Chain(JoinNext(mem, b.addr, n), JoinUpper(b, upper), first)
  {
    var m1 := JoinNext(mem, b.addr, n);
    ChainFrame(mem, m1, upper, first);
    if upper != [] && End(b) == n {
      assert upper == [upper[0]] + upper[1..];
      ChainAppend(m1, [upper[0]], upper[1..], first);
      ChainOne(m1, upper[0], Head(upper[1..], first));
      var c := Block(b.addr, b.size + upper[0].size);
      ChainOne(m1, c, Head(upper[1..], first));
      ChainAppend(m1, [c], upper[1..], first);
    } else {
      ChainOne(m1, b, Head(upper, first));
      ChainAppend(m1, [b], upper, first);
    }
  }

  lemma LinkWrap(m1: Memory, upper: seq<Block>, first: int, b: int)
    requires |upper| > 1 && Chain(m1, upper, first) && DistinctAddrs(upper) && upper[0].addr == b
    requires upper[|upper| - 1].size + upper[0].size < 0x1_0000_0000
    requires End(upper[|upper| - 1]) != b
    ensures var p := upper[|upper| - 1].addr;
      && b in m1 && p in m1 && m1[p].size + m1[b].size < 0x1_0000_0000
      && Circular(JoinPrev(m1, b, p), upper)
  {
    ChainAt(m1, upper, first, 0);
    ChainAt(m1, upper, first, |upper| - 1);
    ChainRedirect(m1, JoinPrev(m1, b, upper[|upper| - 1].addr), upper, first, b);
  }

  lemma LinkLower(m1: Memory, lower: seq<Block>, upper: seq<Block>, was: int, end: int, b: int)
    requires lower != [] && upper != [] && upper[0].addr == b
    requires Chain(m1, lower, was) && Chain(m1, upper, end)
    requires forall i, j :: 0 <= i < |lower| && 0 <= j < |upper| ==> lower[i].addr != upper[j].addr
    requires forall i :: 0 <= i < |lower| - 1 ==> lower[i].addr != lower[|lower| - 1].addr
    requires lower[|lower| - 1].size + upper[0].size < 0x1_0000_0000
    ensures var p := lower[|lower| - 1].addr;
      && b in m1 && p in m1 && m1[p].size + m1[b].size < 0x1_0000_0000
      && Chain(JoinPrev(m1, b, p), JoinLower(lower, upper), end)
  {
    var n := |lower| - 1;
    var p := lower[n];
    ChainAt(m1, upper, end, 0);
    ChainAt(m1, lower, was, n);
    var m2 := JoinPrev(m1, b, p.addr);
    ChainFrame(m1, m2, upper, end);
    assert lower == lower[..n] + [p];
    ChainAppend(m1, lower[..n], [p], was);
    ChainFrame(m1, m2, lower[..n], p.addr);
    if End(p) == b {
      var c := Block(p.addr, p.size + upper[0].size);
      assert upper == [upper[0]] + upper[1..];
      ChainAppend(m2, [upper[0]], upper[1..], end);
      ChainOne(m2, upper[0], Head(upper[1..], end));
      ChainOne(m2, c, Head(upper[1..], end));
      ChainAppend(m2, lower[..n], [c], Head(upper[1..], end));
      ChainAppend(m2, lower[..n] + [c], upper[1..], end);
    } else {
      ChainRedirect(m1, m2, lower, was, b);
      ChainAppend(m2, lower, upper, end);
    }
  }

  lemma SplitChain(mem: Memory, fl: seq<Block>, k: nat)
    requires Circular(mem, fl) && k <= |fl|
    ensures var n := fl[NextIndex(fl, k)];
      && Chain(mem, fl[..k], Head(fl[k..], fl[0].addr)) && Chain(mem, fl[k..], fl[0].addr)
      && n.addr == Head(fl[k..], fl[0].addr) && n.addr in mem && mem[n.addr].size == n.size
  {
    assert fl == fl[..k] + fl[k..];
    ChainAppend(mem, fl[..k], fl[k..], fl[0].addr);
    LinkAt(mem, fl, NextIndex(fl, k));
  }

  lemma SlotEnds(fl: seq<Block>, k: nat, b: Block)
    requires Slot(fl, k, b) && fl != []
    ensures Elsewhere(fl[..k], b.addr) && Elsewhere(fl[k..], b.addr) && Elsewhere(fl, b.addr)
    ensures k == |fl| ==> End(b) != fl[0].addr
    ensures k == 0 ==> End(fl[|fl| - 1]) != b.addr
  {
  }

  lemma JoinNextChain(mem: Memory, fl: seq<Block>, base: int, k: nat, b: Block)
    requires Freeing(mem, fl, base, k, b)
    ensures var n := fl[NextIndex(fl, k)].addr;
      && n in mem && mem[b.addr].size + mem[n].size < 0x1_0000_0000
      && var m1 := JoinNext(mem, b.addr, n);
         && Chain(m1, fl[..k], Head(fl[k..], fl[0].addr))
         && Chain(m1, JoinUpper(b, fl[k..]), fl[0].addr)
  {
    SplitChain(mem, fl, k);
    SlotEnds(fl, k, b);
    var n := fl[NextIndex(fl, k)].addr;
    LinkUpper(mem, fl[k..], fl[0].addr, b, n);
    ChainFrame(mem, JoinNext(mem, b.addr, n), fl[..k], Head(fl[k..], fl[0].addr));
  }

  lemma JoinUpperAddrs(b: Block, upper: seq<Block>)
    ensures var gl := JoinUpper(b, upper);
      && gl != [] && gl[0].addr == b.addr && gl[0].size >= b.size
      && (gl[0].size == b.size || (upper != [] && gl[0].size == b.size + upper[0].size))
      && forall j :: 0 < j < |gl| ==> gl[j] in upper
  {
  }

  lemma LowerUpperApart(fl: seq<Block>, k: nat, b: Block)
    requires Ascending(fl) && Slot(fl, k, b)
    ensures forall i, j :: 0 <= i < k && 0 <= j < |JoinUpper(b, fl[k..])| ==>
          fl[i].addr != JoinUpper(b, fl[k..])[j].addr
  {
    var gl := JoinUpper(b, fl[k..]);
    JoinUpperAddrs(b, fl[k..]);
    forall i, j | 0 <= i < k && 0 <= j < |gl| ensures fl[i].addr != gl[j].addr {
      if j > 0 {
        var m :| 0 <= m < |fl[k..]| && fl[k..][m] == gl[j];
        assert Before(fl[i], fl[k + m]);
      }
    }
  }

  /** Below the slot: the predecessor is the last block of `lower`. */
  lemma JoinPrevBelow(m1: Memory, fl: seq<Block>, k: nat, b: Block)
    requires Ascending(fl) && Slot(fl, k, b) && k > 0
    requires Chain(m1, fl[..k], Head(fl[k..], fl[0].addr)) && Chain(m1, JoinUpper(b, fl[k..]), fl[0].addr)
    requires JoinUpper(b, fl[k..]) != [] && fl[k - 1].size + JoinUpper(b, fl[k..])[0].size < 0x1_0000_0000
    ensures b.addr in m1 && fl[k - 1].addr in m1 && m1[fl[k - 1].addr].size + m1[b.addr].size < 0x1_0000_0000
    ensures Circular(JoinPrev(m1, b.addr, fl[k - 1].addr), Insert(fl, k, b))
  {
    var lower, upper := fl[..k], JoinUpper(b, fl[k..]);
    JoinUpperAddrs(b, fl[k..]);
    LowerUpperApart(fl, k, b);
    OrderedAddrs(fl);
    JoinLowerHead(lower, upper);
    BelowPieces(m1, fl, k, upper, b.addr);
  }

  lemma JoinLowerHead(lower: seq<Block>, upper: seq<Block>)
    requires lower != [] && upper != []
    ensures var gl := JoinLower(lower, upper);
      && gl != [] && gl[0].addr == lower[0].addr
      && |gl| >= |lower| && gl[|lower| - 1].addr == lower[|lower| - 1].addr
  {
  }

  lemma BelowPieces(m1: Memory, fl: seq<Block>, k: nat, upper: seq<Block>, b: int)
    requires 0 < k <= |fl| && DistinctAddrs(fl) && upper != [] && upper[0].addr == b
    requires forall i, j :: 0 <= i < k && 0 <= j < |upper| ==> fl[i].addr != upper[j].addr
    requires Chain(m1, fl[..k], Head(fl[k..], fl[0].addr)) && Chain(m1, upper, fl[0].addr)
    requires fl[k - 1].size + upper[0].size < 0x1_0000_0000
    ensures b in m1 && fl[k - 1].addr in m1 && m1[fl[k - 1].addr].size + m1[b].size < 0x1_0000_0000
    ensures Chain(JoinPrev(m1, b, fl[k - 1].addr), JoinLower(fl[..k], upper), fl[0].addr)
  {
    var lower := fl[..k];
    assert lower[k - 1] == fl[k - 1];
    LinkLower(m1, lower, upper, Head(fl[k..], fl[0].addr), fl[0].addr, b);
  }

  /** Below every block: the predecessor is the last block of the circle. */
  lemma JoinPrevWrap(m1: Memory, fl: seq<Block>, b: Block)
    requires Ascending(fl) && Slot(fl, 0, b) && fl != [] && End(b) <= fl[0].addr
    requires |fl| == 1 ==> End(b) != fl[0].addr
    requires Chain(m1, JoinUpper(b, fl), fl[0].addr)
    requires JoinUpper(b, fl) != [] && fl[|fl| - 1].size + JoinUpper(b, fl)[0].size < 0x1_0000_0000
    ensures var p := fl[|fl| - 1].addr;
      && b.addr in m1 && p in m1 && m1[p].size + m1[b.addr].size < 0x1_0000_0000
      && Circular(JoinPrev(m1, b.addr, p), Insert(fl, 0, b))
  {
    var upper := JoinUpper(b, fl);
    JoinUpperAddrs(b, fl);
    assert |upper| > 1 && upper[|upper| - 1] == fl[|fl| - 1];
    assert fl[0..] == fl && Insert(fl, 0, b) == upper;
    JoinUpperAscending(b, fl);
    OrderedAddrs(upper);
    SlotEnds(fl, 0, b);
    LinkWrap(m1, upper, fl[0].addr, b.addr);
  }

  lemma JoinPrevChain(mem: Memory, m1: Memory, fl: seq<Block>, base: int, k: nat, b: Block)
    requires Freeing(mem, fl, base, k, b)
    requires Chain(m1, fl[..k], Head(fl[k..], fl[0].addr)) && Chain(m1, JoinUpper(b, fl[k..]), fl[0].addr)
    ensures var p := fl[PrevIndex(fl, k)].addr;
      && b.addr in m1 && p in m1 && m1[p].size + m1[b.addr].size < 0x1_0000_0000
      && Circular(JoinPrev(m1, b.addr, p), Insert(fl, k, b))
  {
    JoinUpperAddrs(b, fl[k..]);
    SlotBounds(fl, base, k, b);
    if k > 0 {
      JoinPrevBelow(m1, fl, k, b);
    } else {
      assert fl[0..] == fl;
      JoinPrevWrap(m1, fl, b);
    }
  }

  // ---------- allocating ----------

  /** kr_malloc.c:102-124: unlink the block at `c`, which follows `p`, or split off its tail. */
  function TakeUnits(mem: Memory, p: int, c: int, n: uint32): Memory
    requires p in mem && c in mem && n <= mem[c].size
    requires mem[c].size > n ==> c + mem[c].size - n in mem
  {
    if mem[c].size == n then mem[p := mem[p].(next := mem[c].next)]
    else
      var m := mem[c := mem[c].(size := mem[c].size - n)];
      var t := c + m[c].size;
      m[t := m[t].(size := n)]
  }

  /** Exact fit: the block between `lower` and `upper` is bypassed. */
  lemma UnlinkChain(mem: Memory, lower: seq<Block>, b: Block, upper: seq<Block>, p: int)
    requires Circular(mem, lower + [b] + upper) && DistinctAddrs(lower + [b] + upper)
    requires lower + upper != []
    requires p == (if lower != [] then lower[|lower| - 1] else upper[|upper| - 1]).addr
    ensures p in mem && b.addr in mem
    ensures Circular(mem[p := mem[p].(next := mem[b.addr].next)], lower + upper)
  {
    var fl := lower + [b] + upper;
    var first, gl := fl[0].addr, lower + upper;
    assert fl[|lower|] == b;
    ChainAppend(mem, lower + [b], upper, first);
    ChainAppend(mem, lower, [b], Head(upper, first));
    ChainOne(mem, b, Head(upper, first));
    if lower != [] {
      ChainAt(mem, lower, b.addr, |lower| - 1);
    } else {
      ChainAt(mem, upper, first, |upper| - 1);
    }
    assert forall i :: 0 <= i < |lower| ==> lower[i] == fl[i];
    assert forall i :: 0 <= i < |upper| ==> upper[i] == fl[|lower| + 1 + i];
    var m1 := mem[p := mem[p].(next := mem[b.addr].next)];
    if lower != [] {
      ChainRedirect(mem, m1, lower, b.addr, Head(upper, first));
      ChainFrame(mem, m1, upper, first);
      ChainAppend(m1, lower, upper, first);
    } else {
      ChainRedirect(mem, m1, upper, b.addr, upper[0].addr);
      assert lower + upper == upper;
    }
  }

  /** Tail split: block `f` shrinks in place. */
  lemma ShrinkChain(mem: Memory, m1: Memory, fl: seq<Block>, f: nat, n: nat)
    requires Circular(mem, fl) && DistinctAddrs(fl) && f < |fl| && n <= fl[f].size
    requires forall i :: 0 <= i < |fl| && i != f && fl[i].addr in mem ==>
          fl[i].addr in m1 && m1[fl[i].addr] == mem[fl[i].addr]
    requires IsHeader(m1, Block(fl[f].addr, fl[f].size - n), fl[if f + 1 < |fl| then f + 1 else 0].addr)
    ensures Circular(m1, fl[f := Block(fl[f].addr, fl[f].size - n)])
  {
    var gl := fl[f := Block(fl[f].addr, fl[f].size - n)];
    assert forall i :: 0 <= i < |fl| ==> gl[i].addr == fl[i].addr;
    forall i | 0 <= i < |gl| ensures Linked(m1, gl, i, gl[0].addr) {
      LinkAt(mem, fl, i);
    }
  }

  lemma TakenElsewhere(fl: seq<Block>, f: nat, n: nat)
    requires Ascending(fl) && f < |fl| && 0 < n < fl[f].size
    ensures Elsewhere(fl, Taken(fl, f, n).addr)
  {
    forall i | 0 <= i < |fl| ensures fl[i].addr != Taken(fl, f, n).addr {
      assert i == f || (if i < f then Before(fl[i], fl[f]) else Before(fl[f], fl[i]));
    }
  }

  lemma BaseElsewhere(fl: seq<Block>, base: int, f: nat)
    requires Ordered(fl, base) && f < |fl| && fl[f].size > 0
    ensures |fl| > 1
  {
    var m :| 0 <= m < |fl| && fl[m] == Block(base, 0);
  }

  /** What kr_malloc.c:102-124 needs of memory at block `f`. */
  ghost predicate Takeable(mem: Memory, fl: seq<Block>, f: nat, n: uint32) {
    && f < |fl| && 0 < n <= fl[f].size && Ascending(fl) && Circular(mem, fl) && |fl| > 1
    && Taken(fl, f, n).addr in mem
  }

  function Previous(fl: seq<Block>, f: nat): int
    requires f < |fl|
  {
    fl[if f > 0 then f - 1 else |fl| - 1].addr
  }

  lemma SplitTail(mem: Memory, fl: seq<Block>, f: nat, n: uint32, p: int)
    requires Takeable(mem, fl, f, n) && n < fl[f].size && p in mem
    ensures fl[f].addr in mem && mem[fl[f].addr].size == fl[f].size
    ensures Circular(TakeUnits(mem, p, fl[f].addr, n), fl[f := Block(fl[f].addr, fl[f].size - n)])
  {
    OrderedAddrs(fl);
    LinkAt(mem, fl, f);
    TakenElsewhere(fl, f, n);
    ShrinkChain(mem, TakeUnits(mem, p, fl[f].addr, n), fl, f, n);
  }

  lemma TakeUnitsChain(mem: Memory, fl: seq<Block>, f: nat, n: uint32)
    requires Takeable(mem, fl, f, n)
    ensures var p, c := Previous(fl, f), fl[f].addr;
      && p in mem && c in mem && mem[c].size == fl[f].size
      && Circular(TakeUnits(mem, p, c, n), Allocate(fl, f, n))
  {
    OrderedAddrs(fl);
    var p, b := Previous(fl, f), fl[f];
    LinkAt(mem, fl, f);
    LinkAt(mem, fl, if f > 0 then f - 1 else |fl| - 1);
    if b.size == n {
      assert fl == fl[..f] + [b] + fl[f + 1..];
      UnlinkChain(mem, fl[..f], b, fl[f + 1..], p);
    } else {
      SplitTail(mem, fl, f, n, p);
    }
  }

  lemma TakenHeader(mem: Memory, fl: seq<Block>, f: nat, n: uint32)
    requires Takeable(mem, fl, f, n)
    ensures var p, c, t := Previous(fl, f), fl[f].addr, Taken(fl, f, n).addr;
      && p in mem && c in mem && mem[c].size == fl[f].size
      && t in TakeUnits(mem, p, c, n) && TakeUnits(mem, p, c, n)[t].size == n
      && forall u :: u in mem && u != t && Elsewhere(fl, u) ==>
           u in TakeUnits(mem, p, c, n) && TakeUnits(mem, p, c, n)[u] == mem[u]
  {
    OrderedAddrs(fl);
    LinkAt(mem, fl, f);
    LinkAt(mem, fl, if f > 0 then f - 1 else |fl| - 1);
  }
}
