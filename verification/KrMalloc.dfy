/** memorylab/kr_malloc.c: kr_malloc, morecore and kr_free over memory in
    header-sized units. With `nalloc` 4096 this is memorylab/umalloc.c. */
module KrMalloc {
  import opened FreeList
  import opened FreeChain
  import opened HeapState

  /** sizeof(Header) in bytes. */
  const UNIT: nat := 16

  const NULL: int := 0

  /** What sbrk answers: (void *) -1, or a region with whatever it contains. */
  datatype Sbrk = Fail | At(addr: int, contents: Memory)

  /** kr_malloc.c:65, computed in size_t. */
  function UnitsFor(nbytes: uint32): (n: uint32)
    ensures n >= 1 && (n - 1) * UNIT >= nbytes && (nbytes > 0 ==> (n - 2) * UNIT < nbytes)
  {
    (nbytes + UNIT - 1) / UNIT + 1
  }

  function Max(a: nat, b: nat): (m: nat)
    ensures a <= m && b <= m && (m == a || m == b)
  {
    if a < b then b else a
  }

  // ---------- walking round the circle ----------

  /** The index `d` steps after `i` in a circle of `n`. */
  function Around(i: nat, d: nat, n: nat): nat
    requires i < n && d <= n
  {
    if i + d < n then i + d else i + d - n
  }

  /** The steps from `i` to `j`, at least one. */
  function StepsTo(i: nat, j: nat, n: nat): (d: nat)
    requires i < n && j < n
    ensures 1 <= d <= n && Around(i, d, n) == j
  {
    if i < j then j - i else j + n - i
  }

  /** The first block after `i`, going round, with at least `n` units. */
  ghost predicate NextFit(fl: seq<Block>, i: nat, n: nat, f: nat) {
    && i < |fl| && f < |fl| && fl[f].size >= n
    && forall e :: 1 <= e < StepsTo(i, f, |fl|) ==> fl[Around(i, e, |fl|)].size < n
  }

  /** The slot for an address. */
  function SlotOf(fl: seq<Block>, a: int): (k: nat)
    ensures k <= |fl|
  {
    if fl == [] || fl[0].addr > a then 0 else 1 + SlotOf(fl[1..], a)
  }

  lemma {:induction false} SlotOfIsSlot(fl: seq<Block>, b: Block)
    requires Ascending(fl) && Elsewhere(fl, b.addr)
    ensures Slot(fl, SlotOf(fl, b.addr), b)
  {
    if fl == [] {
    } else if fl[0].addr > b.addr {
      forall i | 0 < i < |fl| ensures b.addr < fl[i].addr {
        assert Before(fl[0], fl[i]);
      }
    } else {
      SlotOfIsSlot(fl[1..], b);
    }
  }

  /** kr_malloc.c:228-242: the position search stops at the predecessor, and only there. */
  lemma StopsAtPredecessor(fl: seq<Block>, k: nat, b: Block, j: nat)
    requires Ascending(fl) && Slot(fl, k, b) && fl != [] && j < |fl|
    ensures var c, n := fl[j].addr, fl[if j + 1 < |fl| then j + 1 else 0].addr;
      (c < b.addr < n || (c >= n && (c < b.addr || b.addr < n))) <==> j == PrevIndex(fl, k)
  {
    OrderedAddrs(fl);
    if j + 1 < |fl| {
      assert Before(fl[j], fl[j + 1]);
    } else if |fl| > 1 {
      assert Before(fl[0], fl[j]);
    }
  }

  lemma InsertPredecessor(fl: seq<Block>, k: nat, b: Block)
    requires k <= |fl| && fl != [] && (k == 0 && |fl| == 1 ==> End(b) != fl[0].addr)
    ensures var gl, p := Insert(fl, k, b), PrevIndex(fl, k);
      gl != [] && (if k > 0 then p < |gl| && gl[p].addr == fl[p].addr else gl[|gl| - 1].addr == fl[p].addr)
  {
    if k == 0 {
      assert fl[0..] == fl;
      var upper := JoinUpper(b, fl);
      assert |upper| > 1 && upper[|upper| - 1] == fl[|fl| - 1];
      assert Insert(fl, 0, b) == upper;
    } else {
      JoinUpperAddrs(b, fl[k..]);
      JoinLowerHead(fl[..k], JoinUpper(b, fl[k..]));
    }
  }

  /** The list holds a block at least as big as the one inserted. */
  lemma InsertIsBig(fl: seq<Block>, k: nat, b: Block) returns (f: nat)
    requires k <= |fl|
    ensures f < |Insert(fl, k, b)| && Insert(fl, k, b)[f].size >= b.size
  {
    JoinUpperAddrs(b, fl[k..]);
    f := if k > 0 && End(fl[k - 1]) == b.addr then k - 1 else k;
  }

  /** `p` is the free block before address `a`, going round. */
  ghost predicate Predecessor(fl: seq<Block>, a: int, p: int) {
    exists i :: 0 <= i < |fl| && fl[i].addr == p
      && ((p < a && forall j :: 0 <= j < |fl| && fl[j].addr < a ==> fl[j].addr <= p)
          || (p > a && forall j :: 0 <= j < |fl| ==> a < fl[j].addr <= p))
  }

  lemma SlotPredecessor(fl: seq<Block>, k: nat, b: Block)
    requires Ascending(fl) && Slot(fl, k, b) && fl != []
    ensures Predecessor(fl, b.addr, fl[PrevIndex(fl, k)].addr)
  {
    var i := PrevIndex(fl, k);
    forall j | 0 <= j < |fl| && j != i ensures if j < i then fl[j].addr < fl[i].addr else fl[i].addr < fl[j].addr {
      assert if j < i then Before(fl[j], fl[i]) else Before(fl[i], fl[j]);
    }
  }

  function Distance(j: nat, t: nat, n: nat): nat
    requires j < n && t < n
  {
    if j <= t then t - j else t + n - j
  }

  lemma SearchAt(mem: Memory, fl: seq<Block>, k: nat, b: Block, j: nat)
    requires Circular(mem, fl) && Ascending(fl) && Slot(fl, k, b) && j < |fl|
    ensures var c := fl[j].addr;
      && c in mem && mem[c].next == fl[if j + 1 < |fl| then j + 1 else 0].addr
      && (c < b.addr < mem[c].next ==> j == PrevIndex(fl, k))
      && (c >= mem[c].next && (c < b.addr || b.addr < mem[c].next) ==> j == PrevIndex(fl, k))
      && (j == PrevIndex(fl, k) ==>
            c < b.addr < mem[c].next || (c >= mem[c].next && (c < b.addr || b.addr < mem[c].next)))
  {
    LinkAt(mem, fl, j);
    StopsAtPredecessor(fl, k, b, j);
  }

  /** kr_malloc.c:228-242, from any block of the circle. */
  method Search(mem: Memory, freep: int, insertp: int, ghost fl: seq<Block>, ghost at: nat, ghost k: nat,
        ghost b: Block)
    returns (currp: int)
    requires Circular(mem, fl) && Ascending(fl) && at < |fl| && fl[at].addr == freep
    requires Slot(fl, k, b) && b.addr == insertp
    ensures currp == fl[PrevIndex(fl, k)].addr
  {
    ghost var j: nat := at;
    currp := freep;
    SearchAt(mem, fl, k, b, j);
    while !(currp < insertp && insertp < mem[currp].next)
      invariant 0 <= j < |fl| && currp == fl[j].addr && currp in mem
      invariant currp < insertp < mem[currp].next ==> j == PrevIndex(fl, k)
      decreases Distance(j, PrevIndex(fl, k), |fl|)
    {
      SearchAt(mem, fl, k, b, j);
      if currp >= mem[currp].next && (currp < insertp || insertp < mem[currp].next) {
        break;
      }
      currp := mem[currp].next;
      j := if j + 1 < |fl| then j + 1 else 0;
      SearchAt(mem, fl, k, b, j);
    }
  }

  // ---------- freeing ----------

  /** kr_malloc.c:254-264. */
  method LinkNext(mem: Memory, insertp: int, currp: int) returns (m: Memory)
    requires insertp in mem && currp in mem && mem[currp].next in mem && mem[currp].next != insertp && currp != insertp
    requires mem[insertp].size + mem[mem[currp].next].size < LIMIT
    ensures m == JoinNext(mem, insertp, mem[currp].next)
  {
    m := mem;
    if insertp + m[insertp].size == m[currp].next {
      m := m[insertp := m[insertp].(size := m[insertp].size + m[m[currp].next].size)];
      m := m[insertp := m[insertp].(next := m[m[currp].next].next)];
    } else {
      m := m[insertp := m[insertp].(next := m[currp].next)];
    }
  }

  /** kr_malloc.c:271-281. */
  method LinkPrev(mem: Memory, insertp: int, currp: int) returns (m: Memory)
    requires insertp in mem && currp in mem && currp != insertp
    requires mem[currp].size + mem[insertp].size < LIMIT
    ensures m == JoinPrev(mem, insertp, currp)
  {
    m := mem;
    if currp + m[currp].size == insertp {
      m := m[currp := m[currp].(size := m[currp].size + m[insertp].size)];
      m := m[currp := m[currp].(next := m[insertp].next)];
    } else {
      m := m[currp := m[currp].(next := insertp)];
    }
  }

  /** The memory after kr_malloc.c:254-281. */
  lemma FreeMemory(mem: Memory, s: State, base: int, a: int, k: nat)
    requires Consistent(s, base) && Circular(mem, s.fl) && a in s.live && a in mem && mem[a].size == s.live[a]
    requires Slot(s.fl, k, Block(a, s.live[a]))
    ensures var b, p, n := Block(a, s.live[a]), s.fl[PrevIndex(s.fl, k)].addr, s.fl[NextIndex(s.fl, k)].addr;
      && p in mem && n in mem && mem[p].next == n && n != a && p != a && mem[a].size + mem[n].size < LIMIT
      && var m1 := JoinNext(mem, a, n);
         && a in m1 && p in m1 && m1[p].size + m1[a].size < LIMIT
         && Circular(JoinPrev(m1, a, p), Insert(s.fl, k, b))
  {
    var b := Block(a, s.live[a]);
    LiveInsertable(s, base, a);
    FreedNeighbours(s, base, a, k);
    SizesFit(s, base, a, PrevIndex(s.fl, k), NextIndex(s.fl, k));
    LinkAt(mem, s.fl, PrevIndex(s.fl, k));
    JoinNextChain(mem, s.fl, base, k, b);
    JoinPrevChain(mem, JoinNext(mem, a, s.fl[NextIndex(s.fl, k)].addr), s.fl, base, k, b);
  }

  lemma FreedNeighbours(s: State, base: int, a: int, k: nat)
    requires Consistent(s, base) && a in s.live && Slot(s.fl, k, Block(a, s.live[a]))
    ensures var i, j := PrevIndex(s.fl, k), NextIndex(s.fl, k);
      && j == (if i + 1 < |s.fl| then i + 1 else 0)
      && s.fl[i].addr != a && s.fl[j].addr != a
      && (i == j ==> s.fl[i].size == 0)
  {
    LiveElsewhere(s, base, a);
  }

  // ---------- the representation ----------

  /** Memory, freep and the index `at` of freep hold the state `s`. */
  ghost predicate Holds(s: State, base: int, mem: Memory, freep: int, at: int) {
    && base in mem && (forall u :: u in s.owned ==> u in mem)
    && (forall a :: a in s.live ==> a in mem && mem[a].size == s.live[a])
    && (if freep == NULL then s.fl == [Block(base, 0)] && s.owned == {}
        else Circular(mem, s.fl) && 0 <= at < |s.fl| && s.fl[at].addr == freep)
  }

  /** Where the predecessor of slot `k` ends up. */
  ghost function FreedAt(s: State, a: int, k: nat): int
    requires a in s.live && k <= |s.fl|
  {
    if k > 0 then k - 1 else |Freed(s, a, k).fl| - 1
  }

  /** The memory after kr_free. */
  function FreedMemory(mem: Memory, a: int, p: int): Memory
    requires a in mem && p in mem && mem[p].next in mem && p != a
    requires mem[a].size + mem[mem[p].next].size < LIMIT
    requires var m1 := JoinNext(mem, a, mem[p].next); m1[p].size + m1[a].size < LIMIT
  {
    JoinPrev(JoinNext(mem, a, mem[p].next), a, p)
  }

  lemma FreeHolds(s: State, base: int, mem: Memory, freep: int, at: nat, a: int, k: nat)
    requires Consistent(s, base) && Holds(s, base, mem, freep, at) && freep != NULL
    requires a in s.live && Slot(s.fl, k, Block(a, s.live[a]))
    ensures var p := s.fl[PrevIndex(s.fl, k)].addr;
      && a in mem && p in mem && mem[p].next in mem && mem[p].next != a && p != a
      && mem[a].size + mem[mem[p].next].size < LIMIT
      && (var m1 := JoinNext(mem, a, mem[p].next); m1[p].size + m1[a].size < LIMIT)
      && Holds(Freed(s, a, k), base, FreedMemory(mem, a, p), p, FreedAt(s, a, k))
      && p != NULL
  {
    var p := s.fl[PrevIndex(s.fl, k)].addr;
    FreeMemory(mem, s, base, a, k);
    OnlyBase(s, base, a, k);
    FreeIndex(s, a, k);
    FreeHeaders(s, base, mem, a, p, mem[p].next, k);
  }

  lemma FreeIndex(s: State, a: int, k: nat)
    requires a in s.live && k <= |s.fl| && s.fl != []
    requires k == 0 && |s.fl| == 1 ==> End(Block(a, s.live[a])) != s.fl[0].addr
    ensures var p, gl, i := s.fl[PrevIndex(s.fl, k)].addr, Freed(s, a, k).fl, FreedAt(s, a, k);
      0 <= i < |gl| && gl[i].addr == p
  {
    InsertPredecessor(s.fl, k, Block(a, s.live[a]));
  }

  lemma OnlyBase(s: State, base: int, a: int, k: nat)
    requires Consistent(s, base) && a in s.live && Slot(s.fl, k, Block(a, s.live[a]))
    ensures s.fl != [] && s.fl[PrevIndex(s.fl, k)].addr > 0
    ensures |s.fl| == 1 ==> End(Block(a, s.live[a])) != s.fl[0].addr
  {
    LiveInsertable(s, base, a);
  }

  /** Freeing touches no live header. */
  lemma FreeHeaders(s: State, base: int, mem: Memory, a: int, p: int, n: int, k: nat)
    requires Consistent(s, base) && a in s.live && a in mem && n in mem && p in mem && p != a
    requires mem[a].size + mem[n].size < LIMIT
    requires var m1 := JoinNext(mem, a, n); m1[p].size + m1[a].size < LIMIT
    requires k <= |s.fl| && p == s.fl[PrevIndex(s.fl, k)].addr
    requires forall c :: c in s.live ==> c in mem && mem[c].size == s.live[c]
    ensures var m2 := JoinPrev(JoinNext(mem, a, n), a, p);
      (forall u :: u in mem ==> u in m2) && forall c :: c in s.live && c != a ==> m2[c].size == s.live[c]
  {
    forall c | c in s.live ensures c != p {
      LiveElsewhere(s, base, c);
    }
  }

  /** kr_malloc.c:254-281: the block at `insertp` goes after the one at `currp`. */
  method PutBack(mem: Memory, insertp: int, currp: int,
                 ghost s: State, ghost base: int, ghost freep: int, ghost at: int, ghost k: nat)
    returns (m: Memory, ghost t: State, ghost now: int, ghost big: nat)
    requires Consistent(s, base) && Holds(s, base, mem, freep, at) && freep != NULL
    requires insertp in s.live && Slot(s.fl, k, Block(insertp, s.live[insertp]))
    requires s.fl != [] && currp == s.fl[PrevIndex(s.fl, k)].addr
    ensures FreeStep(s, t, insertp) && Consistent(t, base) && Holds(t, base, m, currp, now) && currp != NULL
    ensures big < |t.fl| && t.fl[big].size >= s.live[insertp]
  {
    FreeHolds(s, base, mem, freep, at, insertp, k);
    FreeKeeps(s, base, insertp, k);
    m := LinkNext(mem, insertp, currp);
    m := LinkPrev(m, insertp, currp);
    t, now := Freed(s, insertp, k), FreedAt(s, insertp, k);
    big := InsertIsBig(s.fl, k, Block(insertp, s.live[insertp]));
  }

  /** Where the block at `insertp` belongs. */
  method FindSlot(mem: Memory, freep: int, insertp: int, ghost s: State, ghost base: int, ghost at: int)
    returns (currp: int, ghost k: nat)
    requires Consistent(s, base) && Holds(s, base, mem, freep, at) && insertp in s.live
    ensures k <= |s.fl| && Slot(s.fl, k, Block(insertp, s.live[insertp])) && freep != NULL
    ensures s.fl != [] && currp == s.fl[PrevIndex(s.fl, k)].addr && Predecessor(s.fl, insertp, currp)
  {
    LiveElsewhere(s, base, insertp);
    k := SlotOf(s.fl, insertp);
    SlotOfIsSlot(s.fl, Block(insertp, s.live[insertp]));
    currp := Search(mem, freep, insertp, s.fl, at, k, Block(insertp, s.live[insertp]));
    SlotPredecessor(s.fl, k, Block(insertp, s.live[insertp]));
  }

  /** The body of kr_free on memory and freep. */
  method FreeBlock(mem: Memory, freep: int, insertp: int, ghost s: State, ghost base: int, ghost at: int)
    returns (m: Memory, currp: int, ghost t: State, ghost now: int, ghost big: nat)
    requires Consistent(s, base) && Holds(s, base, mem, freep, at) && insertp in s.live
    ensures FreeStep(s, t, insertp) && Consistent(t, base) && Holds(t, base, m, currp, now) && currp != NULL
    ensures Predecessor(s.fl, insertp, currp)
    ensures big < |t.fl| && t.fl[big].size >= s.live[insertp]
  {
    ghost var k;
    currp, k := FindSlot(mem, freep, insertp, s, base, at);
    m, t, now, big := PutBack(mem, insertp, currp, s, base, freep, at, k);
  }

  // ---------- growing ----------

  ghost predicate Answers(brk: Sbrk, s: State, base: int, n: nat) {
    brk.At? ==> FreshRegion(s, base, Block(brk.addr, n)) && brk.contents.Keys == UnitsOf(Block(brk.addr, n))
  }

  lemma GrowHolds(s: State, base: int, mem: Memory, freep: int, at: int, r: Block, m: Memory)
    requires Consistent(s, base) && Holds(s, base, mem, freep, at) && freep != NULL && FreshRegion(s, base, r)
    requires forall u :: u in mem && u !in UnitsOf(r) ==> u in m && m[u] == mem[u]
    requires forall u :: u in UnitsOf(r) ==> u in m
    requires m[r.addr].size == r.size
    ensures Holds(Grown(s, r), base, m, freep, at)
  {
    FreshHeader(s, base, r);
    forall i | 0 <= i < |s.fl| ensures s.fl[i].addr !in UnitsOf(r) {
      if s.fl[i].size > 0 {
        FreeAt(s.fl, i, s.fl[i].addr);
      }
    }
    ChainFrame(mem, m, s.fl, s.fl[0].addr);
    forall a | a in s.live ensures a !in UnitsOf(r) {
      LiveElsewhere(s, base, a);
    }
  }

  /** morecore: at least `nalloc` units from the system, put into the free list by kr_free. */
  method MoreCore(mem: Memory, freep: int, nunits: uint32, nalloc: uint32, brk: Sbrk,
                  ghost s: State, ghost base: int, ghost at: int)
    returns (m: Memory, p: int, ghost t: State, ghost now: int, ghost big: nat)
    requires Consistent(s, base) && Holds(s, base, mem, freep, at) && freep != NULL && nunits > 0
    requires Answers(brk, s, base, Max(nunits, nalloc))
    ensures p == NULL <==> brk.Fail?
    ensures brk.Fail? ==> m == mem && t == s && now == at
    ensures brk.At? ==> GrowStep(s, t, base, Block(brk.addr, Max(nunits, nalloc)))
    ensures Consistent(t, base) && (brk.At? ==> Holds(t, base, m, p, now))
    ensures brk.At? ==> big < |t.fl| && t.fl[big].size >= nunits && Predecessor(s.fl, brk.addr, p)
  {
    m, p, t, now, big := mem, NULL, s, at, 0;
    var n := nunits;
    if n < nalloc {
      n := nalloc;
    }
    if brk.At? {
      ghost var r := Block(brk.addr, n);
      m := NewBlock(mem, freep, brk.addr, n, brk.contents, s, base, at);
      m, p, t, now, big := FreeBlock(m, freep, brk.addr, Grown(s, r), base, at);
    }
  }

  lemma Overlay(mem: Memory, contents: Memory, a: int, n: uint32)
    requires a in contents
    ensures var m := (mem + contents)[a := (mem + contents)[a].(size := n)];
      && (forall u :: u in mem && u !in contents.Keys ==> u in m && m[u] == mem[u])
      && (forall u :: u in contents.Keys ==> u in m) && m[a].size == n
  {
  }

  /** kr_malloc.c:188-189: a header at the start of the new region. */
  method NewBlock(mem: Memory, freep: int, insertp: int, n: uint32, contents: Memory,
                  ghost s: State, ghost base: int, ghost at: int)
    returns (m: Memory)
    requires Consistent(s, base) && Holds(s, base, mem, freep, at) && freep != NULL
    requires FreshRegion(s, base, Block(insertp, n)) && contents.Keys == UnitsOf(Block(insertp, n))
    ensures var t := Grown(s, Block(insertp, n));
      Consistent(t, base) && Holds(t, base, m, freep, at) && insertp !in s.live && insertp in t.live
            && t.live[insertp] == n
  {
    ghost var r := Block(insertp, n);
    assert insertp in UnitsOf(r);
    m := mem + contents;
    m := m[insertp := m[insertp].(size := n)];
    Overlay(mem, contents, insertp, n);
    GrowKeeps(s, base, r);
    GrowHolds(s, base, mem, freep, at, r, m);
  }

  // ---------- allocating ----------

  /** The first `d - 1` blocks after freep are too small. */
  ghost predicate Passed(fl: seq<Block>, at: int, d: nat, n: nat) {
    0 <= at < |fl| && d <= |fl| && forall e: nat :: 1 <= e < d ==> fl[Around(at, e, |fl|)].size < n
  }

  ghost predicate TooSmall(fl: seq<Block>, n: nat) {
    forall i :: 0 <= i < |fl| ==> fl[i].size < n
  }

  lemma PassedAll(fl: seq<Block>, at: int, n: nat)
    requires fl != [] && Passed(fl, at, |fl|, n) && fl[at].size < n
    ensures TooSmall(fl, n)
  {
    forall i: nat | i < |fl| ensures fl[i].size < n {
      var e := StepsTo(at, i, |fl|);
      assert i == at || fl[Around(at, e, |fl|)].size < n;
    }
  }

  lemma StepsBack(at: nat, d: nat, n: nat)
    requires at < n && 1 <= d <= n
    ensures StepsTo(at, Around(at, d, n), n) == d
    ensures Around(at, d - 1, n) == (if Around(at, d, n) > 0 then Around(at, d, n) - 1 else n - 1)
    ensures d < n ==> Around(at, d + 1, n) == (if Around(at, d, n) + 1 < n then Around(at, d, n) + 1 else 0)
    ensures Around(at, d, n) == at <==> d == n
  {
  }

  /** Every unit of a free block is in memory. */
  lemma FreeInMemory(s: State, base: int, mem: Memory, freep: int, at: int, f: nat, n: nat)
    requires Consistent(s, base) && Holds(s, base, mem, freep, at) && freep != NULL
    requires f < |s.fl| && 0 < n <= s.fl[f].size < LIMIT
    ensures Takeable(mem, s.fl, f, n)
  {
    TakenNotLive(s, base, f, n);
    assert Taken(s.fl, f, n).addr in UnitsOf(Taken(s.fl, f, n));
    BaseElsewhere(s.fl, base, f);
  }

  /** Where the block before `f` is afterwards. */
  ghost function AllocatedAt(fl: seq<Block>, f: nat, n: nat): int
    requires f < |fl| && n <= fl[f].size
  {
    if f > 0 then f - 1 else |Allocate(fl, f, n)| - 1
  }

  lemma AllocHolds(s: State, base: int, mem: Memory, freep: int, at: int, f: nat, n: uint32)
    requires Consistent(s, base) && Holds(s, base, mem, freep, at) && freep != NULL
    requires f < |s.fl| && 0 < n <= s.fl[f].size < LIMIT
    ensures var p, c := Previous(s.fl, f), s.fl[f].addr;
      && p in mem && c in mem && mem[c].size == s.fl[f].size && (mem[c].size > n ==> c + mem[c].size - n in mem)
      && Holds(Allocated(s, f, n), base, TakeUnits(mem, p, c, n), p, AllocatedAt(s.fl, f, n)) && p != NULL
  {
    FreeInMemory(s, base, mem, freep, at, f, n);
    TakeUnitsChain(mem, s.fl, f, n);
    TakenHeader(mem, s.fl, f, n);
    AllocHeaders(s, base, mem, f, n);
    AllocIndex(s.fl, base, f, n);
  }

  lemma AllocIndex(fl: seq<Block>, base: int, f: nat, n: nat)
    requires Ordered(fl, base) && f < |fl| && 0 < n <= fl[f].size
    ensures var gl, i := Allocate(fl, f, n), AllocatedAt(fl, f, n);
      0 <= i < |gl| && gl[i].addr == Previous(fl, f) && Previous(fl, f) > 0
  {
    BaseElsewhere(fl, base, f);
  }

  lemma AllocHeaders(s: State, base: int, mem: Memory, f: nat, n: uint32)
    requires Consistent(s, base) && Takeable(mem, s.fl, f, n)
    requires forall a :: a in s.live ==> a in mem && mem[a].size == s.live[a]
    ensures var p, c := Previous(s.fl, f), s.fl[f].addr;
      && p in mem && c in mem && mem[c].size == s.fl[f].size
      && var m := TakeUnits(mem, p, c, n);
         && (forall u :: u in mem ==> u in m)
         && forall a :: a in Allocated(s, f, n).live ==> a in m && m[a].size == Allocated(s, f, n).live[a]
  {
    TakenHeader(mem, s.fl, f, n);
    TakenNotLive(s, base, f, n);
    forall a | a in s.live ensures Elsewhere(s.fl, a) {
      LiveElsewhere(s, base, a);
    }
  }

  /** kr_malloc.c:102-135: block `f`, at `c`, after the block at `p`, gives `n` units. */
  method TakeBlock(mem: Memory, p: int, c: int, n: uint32,
                   ghost s: State, ghost base: int, ghost freep: int, ghost at: int, ghost f: nat)
    returns (m: Memory, currp: int, ghost t: State, ghost now: int)
    requires Consistent(s, base) && Holds(s, base, mem, freep, at) && freep != NULL
    requires f < |s.fl| && 0 < n <= s.fl[f].size < LIMIT
    requires p == Previous(s.fl, f) && c == s.fl[f].addr
    ensures currp == End(s.fl[f]) - n && t == Allocated(s, f, n) && AllocStep(s, t, currp, n)
    ensures Consistent(t, base) && Holds(t, base, m, p, now) && p != NULL
  {
    hide Consistent, Holds;
    AllocHolds(s, base, mem, freep, at, f, n);
    AllocKeeps(s, base, f, n);
    m, currp := mem, c;
    if m[currp].size == n {
      m := m[p := m[p].(next := m[currp].next)];
    } else {
      m := m[currp := m[currp].(size := m[currp].size - n)];
      currp := currp + m[currp].size;
      m := m[currp := m[currp].(size := n)];
    }
    t, now := Allocated(s, f, n), AllocatedAt(s.fl, f, n);
  }

  /** The search for `n` units is `d` blocks past freep, at `currp`, with `prevp` behind it;
      the blocks passed are too small, and after growing some block is not. */
  ghost predicate Searching(s: State, base: int, mem: Memory, freep: int, at: int, d: nat, n: nat,
                            grew: bool, big: nat, prevp: int, currp: int) {
    && Consistent(s, base) && Holds(s, base, mem, freep, at) && freep != NULL
    && 1 <= d <= |s.fl| && Passed(s.fl, at, d, n)
    && (grew ==> big < |s.fl| && s.fl[big].size >= n)
    && currp == s.fl[Around(at, d, |s.fl|)].addr && prevp == s.fl[Around(at, d - 1, |s.fl|)].addr
  }

  lemma StartLap(s: State, base: int, mem: Memory, freep: int, at: int, n: nat, grew: bool, big: nat)
    requires Consistent(s, base) && Holds(s, base, mem, freep, at) && freep != NULL
    requires grew ==> big < |s.fl| && s.fl[big].size >= n
    ensures freep in mem && Searching(s, base, mem, freep, at, 1, n, grew, big, freep, mem[freep].next)
  {
    LinkAt(mem, s.fl, at);
  }

  /** What the search knows about the block it looks at. */
  lemma LookAt(s: State, base: int, mem: Memory, freep: int, at: int, d: nat, n: nat, grew: bool, big: nat, p: int,
        c: int)
    requires Searching(s, base, mem, freep, at, d, n, grew, big, p, c)
    ensures var f := Around(at, d, |s.fl|);
      && c in mem && mem[c].size == s.fl[f].size < LIMIT && p == Previous(s.fl, f)
      && (c == freep <==> d == |s.fl|)
  {
    var f := Around(at, d, |s.fl|);
    LinkAt(mem, s.fl, f);
    StepsBack(at, d, |s.fl|);
    OrderedAddrs(s.fl);
  }

  /** A whole lap without success. After growing there is none. */
  lemma EndLap(s: State, base: int, mem: Memory, freep: int, at: int, d: nat, n: nat, grew: bool, big: nat, p: int)
    requires Searching(s, base, mem, freep, at, d, n, grew, big, p, freep) && freep in mem && mem[freep].size < n
    ensures !grew && TooSmall(s.fl, n)
  {
    LookAt(s, base, mem, freep, at, d, n, grew, big, p, freep);
    PassedAll(s.fl, at, n);
  }

  lemma NextStep(s: State, base: int, mem: Memory, freep: int, at: int, d: nat, n: nat, grew: bool, big: nat, p: int,
        c: int)
    requires Searching(s, base, mem, freep, at, d, n, grew, big, p, c) && c in mem && c != freep && mem[c].size < n
    ensures Searching(s, base, mem, freep, at, d + 1, n, grew, big, c, mem[c].next)
  {
    LookAt(s, base, mem, freep, at, d, n, grew, big, p, c);
    LinkAt(mem, s.fl, Around(at, d, |s.fl|));
    StepsBack(at, d, |s.fl|);
  }

  /** `a` starts the last `n` units of the first block after the one at `start` that has as many;
      the block before that one, going round, is at `p`. */
  ghost predicate FitAfter(fl: seq<Block>, start: int, n: nat, a: int, p: int) {
    exists i: nat, f: nat ::
      && i < |fl| && fl[i].addr == start && NextFit(fl, i, n, f) && a == End(fl[f]) - n
      && p == fl[if f == 0 then |fl| - 1 else f - 1].addr
  }

  /** The block looked at is big enough. */
  method TakeFit(mem: Memory, prevp: int, currp: int, n: uint32, ghost s: State, ghost base: int, ghost freep: int,
                 ghost at: int, ghost d: nat, ghost grew: bool, ghost big: nat)
    returns (m: Memory, r: int, ghost t: State, ghost now: int)
    requires Searching(s, base, mem, freep, at, d, n, grew, big, prevp, currp)
    requires n > 0 && currp in mem && mem[currp].size >= n
    ensures AllocStep(s, t, r - 1, n) && Consistent(t, base) && Holds(t, base, m, prevp, now)
    ensures prevp != NULL && r != NULL
    ensures FitAfter(s.fl, freep, n, r - 1, prevp)
  {
    ghost var f := Around(at, d, |s.fl|);
    LookAt(s, base, mem, freep, at, d, n, grew, big, prevp, currp);
    StepsBack(at, d, |s.fl|);
    assert NextFit(s.fl, at, n, f);
    m, r, t, now := TakeBlock(mem, prevp, currp, n, s, base, freep, at, f);
    assert r > 0;
    r := r + 1;
  }

  /** How far kr_malloc has come: has it grown the heap, and from which state. */
  ghost predicate Progress(s0: State, g: State, base: int, n: nat, nalloc: nat, brk: Sbrk, grew: bool) {
    if grew then
      && brk.At? && TooSmall(s0.fl, n)
      && GrowStep(s0, g, base, Block(brk.addr, Max(n, nalloc)))
    else g == s0
  }

  /** kr_malloc.c:151, and the step round to the block after the one morecore returns. */
  method GrowLap(mem: Memory, freep: int, nunits: uint32, nalloc: uint32, brk: Sbrk,
                 ghost s: State, ghost base: int, ghost at: int)
    returns (m: Memory, p: int, ghost t: State, ghost now: int, ghost big: nat)
    requires Consistent(s, base) && Holds(s, base, mem, freep, at) && freep != NULL && nunits > 0
    requires Answers(brk, s, base, Max(nunits, nalloc)) && TooSmall(s.fl, nunits)
    ensures p == NULL <==> brk.Fail?
    ensures p == NULL ==> m == mem && t == s && now == at
    ensures p != NULL ==> p in m && Searching(t, base, m, p, now, 1, nunits, true, big, p, m[p].next)
    ensures p != NULL ==> Progress(s, t, base, nunits, nalloc, brk, true) && Predecessor(s.fl, brk.addr, p)
  {
    m, p, t, now, big := MoreCore(mem, freep, nunits, nalloc, brk, s, base, at);
    if p != NULL {
      StartLap(t, base, m, p, now, nunits, true, big);
    }
  }

  /** kr_malloc.c:81-155. */
  method SearchFit(mem0: Memory, freep0: int, nunits: uint32, nalloc: uint32, brk: Sbrk,
                   ghost s0: State, ghost base: int, ghost at0: int)
    returns (mem: Memory, freep: int, r: int, ghost t: State, ghost at: int, ghost g: State, ghost grew: bool,
          ghost start: int)
    requires Consistent(s0, base) && Holds(s0, base, mem0, freep0, at0) && freep0 != NULL && nunits > 0
    requires Answers(brk, s0, base, Max(nunits, nalloc))
    ensures Consistent(t, base) && Holds(t, base, mem, freep, at) && freep != NULL
    ensures Progress(s0, g, base, nunits, nalloc, brk, grew)
    ensures if r == NULL then !grew && t == s0 && freep == start && brk.Fail? && TooSmall(s0.fl, nunits)
            else AllocStep(g, t, r - 1, nunits) && FitAfter(g.fl, start, nunits, r - 1, freep)
    ensures if grew then Predecessor(s0.fl, brk.addr, start) else start == freep0
  {
    hide Consistent, Holds, GrowStep, AllocStep, FitAfter, TooSmall, Predecessor;
    mem, freep, at, g, grew, start := mem0, freep0, at0, s0, false, freep0;
    ghost var d: nat, big: nat := 1, 0;
    StartLap(g, base, mem, freep, at, nunits, grew, big);
    var prevp := freep;
    var currp := mem[prevp].next;
    while true
      invariant Searching(g, base, mem, freep, at, d, nunits, grew, big, prevp, currp)
      invariant Progress(s0, g, base, nunits, nalloc, brk, grew) && start == freep
      invariant if grew then Predecessor(s0.fl, brk.addr, start) else start == freep0
      decreases !grew, |g.fl| - d
    {
      LookAt(g, base, mem, freep, at, d, nunits, grew, big, prevp, currp);
      if mem[currp].size >= nunits {
        mem, r, t, at := TakeFit(mem, prevp, currp, nunits, g, base, freep, at, d, grew, big);
        freep := prevp;
        return;
      }
      if currp == freep {
        EndLap(g, base, mem, freep, at, d, nunits, grew, big, prevp);
        assert g == s0 && start == freep0;
        mem, currp, g, at, big := GrowLap(mem, freep, nunits, nalloc, brk, g, base, at);
        if currp == NULL {
          r, t := NULL, g;
          return;
        }
        freep, grew, d, start := currp, true, 1, currp;
      } else {
        NextStep(g, base, mem, freep, at, d, nunits, grew, big, prevp, currp);
        d := d + 1;
      }
      prevp := currp;
      currp := mem[currp].next;
    }
  }

  /** What a call adds to the run. */
  ghost function Extended(trace: seq<State>, g: State, t: State, grew: bool, r: int): seq<State> {
    var more := if grew then trace + [g] else trace;
    if r != NULL then more + [t] else more
  }

  lemma MallocTrace(trace: seq<State>, base: int, s: State, g: State, t: State, n: nat, nalloc: nat, brk: Sbrk,
                    grew: bool, r: int)
    requires trace != [] && trace[|trace| - 1] == s && Run(trace, base)
    requires Progress(s, g, base, n, nalloc, brk, grew)
    requires if r == NULL then !grew && t == s else AllocStep(g, t, r - 1, n)
    ensures var longer := Extended(trace, g, t, grew, r); Run(longer, base) && longer[|longer| - 1] == t
  {
    hide Run, AllocStep, GrowStep, TooSmall;
    var more := trace;
    if grew {
      RunExtended(trace, base, g);
      more := trace + [g];
    }
    if r != NULL { RunExtended(more, base, t); }
  }

  /** What a call does to the live blocks. */
  lemma MallocLive(base: int, s: State, g: State, t: State, n: nat, nalloc: nat, brk: Sbrk, grew: bool, a: int)
    requires Consistent(s, base) && Progress(s, g, base, n, nalloc, brk, grew) && AllocStep(g, t, a, n)
    ensures t.live == s.live[a := n] && a !in s.live && UnitsOf(Block(a, n)) !! LiveUnits(s.live)
    ensures s.owned <= t.owned && (grew ==> UnitsOf(Block(brk.addr, Max(n, nalloc))) <= t.owned)
  {
    hide Consistent, AllocStep, GrowStep, TooSmall, UnitsOf, LiveUnits;
    if grew { GrowStepKeeps(s, g, base, Block(brk.addr, Max(n, nalloc))); }
    AllocStepKeeps(g, t, base, a, n);
  }

  class KrHeap {
    const base: int
    const nalloc: uint32
    var mem: Memory
    var freep: int
    /** Owned units, live blocks, free list. */
    ghost var now: State
    /** Where freep points in the free list. */
    ghost var at: int
    /** All states so far, with those between a growth and the allocation after it. */
    ghost var trace: seq<State>

    ghost predicate Valid()
      reads this
    {
      && base > 0 && nalloc > 0 && Consistent(now, base) && Holds(now, base, mem, freep, at)
      && trace != [] && Run(trace, base) && trace[|trace| - 1] == now
    }

    constructor (base: int, nalloc: uint32, garbage: Header)
      requires base > 0 && nalloc > 0
      ensures Valid() && freep == NULL && now == Start(base) && trace == [Start(base)]
      ensures this.base == base && this.nalloc == nalloc
    {
      this.base, this.nalloc := base, nalloc;
      mem, freep := map[base := garbage], NULL;
      now, at, trace := Start(base), 0, [Start(base)];
      new;
      StartIsConsistent(base);
    }

    /** kr_free: `ptr` is the unit after the header of a live block. */
    method KrFree(ptr: int)
      requires Valid() && ptr - 1 in now.live
      modifies this
      ensures Valid() && freep != NULL && trace == old(trace) + [now]
      ensures FreeStep(old(now), now, ptr - 1) && now.owned == old(now.owned) && now.live == old(now.live) - {ptr - 1}
      ensures Predecessor(old(now).fl, ptr - 1, freep)
    {
      hide Consistent, Holds, Run, FreeStep;
      var m, p;
      ghost var t, i, big;
      m, p, t, i, big := FreeBlock(mem, freep, ptr - 1, now, base, at);
      FreeStepKeeps(now, t, base, ptr - 1);
      RunExtended(trace, base, t);
      trace := trace + [t];
      mem, freep, now, at := m, p, t, i;
    }

    /** kr_malloc. `brk` is what the system answers if it is asked for more units; it is
        asked at most once. Returns NULL or the unit after the header of the new block,
        and, for the record, the state `g` the block was taken from. freep is then at the block
        before the one that was looked at last, where the next search starts. */
    method KrMalloc(nbytes: uint32, brk: Sbrk) returns (r: int, ghost g: State, ghost grew: bool, ghost start: int)
      requires Valid() && Answers(brk, now, base, Max(UnitsFor(nbytes), nalloc))
      modifies this
      ensures Valid() && freep != NULL
      ensures Progress(old(now), g, base, UnitsFor(nbytes), nalloc, brk, grew)
      ensures if r == NULL then
                !grew && now == old(now) && freep == start && brk.Fail? && TooSmall(old(now).fl, UnitsFor(nbytes))
              else
                AllocStep(g, now, r - 1, UnitsFor(nbytes)) && FitAfter(g.fl, start, UnitsFor(nbytes), r - 1, freep)
      ensures r != NULL ==> now.live == old(now.live)[r - 1 := UnitsFor(nbytes)] && r - 1 !in old(now.live)
      ensures r != NULL ==> UnitsOf(Block(r - 1, UnitsFor(nbytes))) !! LiveUnits(old(now.live))
      ensures trace == Extended(old(trace), g, now, grew, r)
      ensures if grew then Predecessor(old(now).fl, brk.addr, start)
              else start == if old(freep) == NULL then base else old(freep)
    {
      hide Consistent, Holds, GrowStep, AllocStep, Run, FitAfter, Progress, TooSmall, Predecessor;
      var m, p := mem, freep;
      ghost var i, t := at, now;
      if p == NULL {
        FirstCall(now, base, m, at);
        m, p, i := m[base := Header(base, 0)], base, 0;
      }
      m, p, r, t, i, g, grew, start := SearchFit(m, p, UnitsFor(nbytes), nalloc, brk, now, base, i);
      MallocTrace(trace, base, now, g, t, UnitsFor(nbytes), nalloc, brk, grew, r);
      if r != NULL { MallocLive(base, now, g, t, UnitsFor(nbytes), nalloc, brk, grew, r - 1); }
      trace := Extended(trace, g, t, grew, r);
      mem, freep, now, at := m, p, t, i;
    }

    /** The program writes into the payload of a live block: any unit of it but the header. */
    method Write(a: int, u: int, contents: Header)
      requires Valid() && a in now.live && a < u < a + now.live[a]
      modifies this`mem
      ensures Valid()
    {
      WriteHolds(now, base, mem, freep, at, a, u, contents);
      mem := mem[u := contents];
    }
  }

  lemma FirstCall(s: State, base: int, mem: Memory, at: int)
    requires Consistent(s, base) && Holds(s, base, mem, NULL, at)
    ensures Holds(s, base, mem[base := Header(base, 0)], base, 0)
  {
    ChainOne(mem[base := Header(base, 0)], Block(base, 0), base);
    forall a ensures a !in s.live {
      if a in s.live {
        LiveIn(s.live, a);
      }
    }
  }

  /** Neither free blocks nor live blocks have a header inside a payload. */
  lemma NoHeader(s: State, base: int, a: int, u: int)
    requires Consistent(s, base) && a in s.live && a < u < a + s.live[a]
    ensures Elsewhere(s.fl, u) && u !in s.live && u != base
  {
    LiveIn(s.live, a);
    LiveElsewhere(s, base, a);
    assert u in UnitsOf(Block(a, s.live[a]));
    forall i | 0 <= i < |s.fl| ensures s.fl[i].addr != u {
      if s.fl[i].addr == u && s.fl[i].size > 0 {
        FreeAt(s.fl, i, u);
      }
    }
    forall b | b in s.live ensures b != u {
      assert NoOverlap(s.live, a, b);
    }
  }

  lemma WriteHolds(s: State, base: int, mem: Memory, freep: int, at: int, a: int, u: int, contents: Header)
    requires Consistent(s, base) && Holds(s, base, mem, freep, at) && a in s.live && a < u < a + s.live[a]
    ensures Holds(s, base, mem[u := contents], freep, at)
  {
    NoHeader(s, base, a, u);
    hide Consistent;
    if freep != NULL {
      ChainFrame(mem, mem[u := contents], s.fl, s.fl[0].addr);
    }
  }

  lemma LiveElsewhere(s: State, base: int, a: int)
    requires Consistent(s, base) && a in s.live
    ensures Elsewhere(s.fl, a) && a in s.owned
  {
    LiveInsertable(s, base, a);
    assert a in UnitsOf(Block(a, s.live[a]));
    forall i | 0 <= i < |s.fl| ensures s.fl[i].addr != a {
      if s.fl[i].addr == a && s.fl[i].size > 0 {
        FreeAt(s.fl, i, a);
      }
    }
  }
}
