/** memorylab/paging.c as values: the frame bitmap, page tables kept inside the memory they
    map, and the pages of all processes as the map those bytes stand for. */
module PagingModel {

  const PAGES := 256
  const FRAME := 256
  const MAX_PROCS := 8
  const TLB_SIZE := 4
  /** Page table entries in one frame. */
  const ENTRIES := 64

  /** An unsigned char, or a frame number. */
  type byte = x: int | 0 <= x < 256

  datatype Procstate = UNUSED | RUNNING | READY | BLOCKED

  /** Slot 0 has neither name nor table. */
  datatype Proc = Proc(name: string, state: Procstate, tablePfn: byte, ptbr: Register)

  /** Four bytes of a page table; all are plain chars. */
  datatype Pte = Pte(pfn: byte, valid: byte, present: byte, protect: byte)

  /** The page table base register: null, an address in mem, or a table that is not in mem. */
  datatype Register = Null | InMem(address: int) | Outside(table: Table)

  /** What one frame holds of a page table. */
  type Table = t: seq<Pte> | |t| == 64 witness seq(64, _ => Pte(0, 0, 0, 0))

  /** A plain char. */
  type schar = x: int | -128 <= x < 128

  datatype Tlbe = Tlbe(valid: bool, vpn: schar, pfn: schar)

  /** An int or a byte read as a (signed) char. */
  function SChar(x: int): (c: schar)
    ensures (x - c) % 256 == 0
  {
    if x % 256 < 128 then x % 256 else x % 256 - 256
  }

  // ---------- the bitmap ----------

  function Mask(k: nat): bv32
    requires k < 32
  {
    (1 as bv32) << k
  }

  predicate Test(w: bv32, m: bv32) {
    w & m != 0
  }

  function Or(w: bv32, m: bv32): bv32 {
    w | m
  }

  function AndNot(w: bv32, m: bv32): bv32 {
    w & !m
  }

  predicate Apart(m: bv32, n: bv32) {
    m & n == 0
  }

  /** Is page frame f in use? */
  predicate Marked(b: seq<bv32>, f: byte)
    requires |b| == 8
  {
    Test(b[f / 32], Mask(f % 32))
  }

  /** Bit k of a word, counted from the lowest. */
  predicate Bit(w: bv32, k: nat)
    requires k < 32
  {
    (w >> k) & 1 == 1
  }

  /** Frame f is bit f % 32 of word f / 32. */
  lemma MarkedBit(b: seq<bv32>, f: byte)
    requires |b| == 8
    ensures Marked(b, f) <==> Bit(b[f / 32], f % 32)
  {
    hide Test, Mask, Bit;
    BitOf(b[f / 32], f % 32);
  }

  lemma BitOf(w: bv32, k: nat)
    requires k < 32
    ensures Test(w, Mask(k)) <==> Bit(w, k)
  {
  }

  lemma MasksApart(j: nat, k: nat)
    requires j < 32 && k < 32
    ensures Test(Mask(j), Mask(j))
    ensures j != k ==> Apart(Mask(j), Mask(k))
  {
  }

  lemma SetHere(w: bv32, m: bv32)
    requires Test(m, m)
    ensures Test(Or(w, m), m)
  {
  }

  lemma ClearedHere(w: bv32, m: bv32)
    ensures !Test(AndNot(w, m), m)
  {
  }

  lemma SetElsewhere(w: bv32, m: bv32, n: bv32)
    requires Apart(m, n)
    ensures Test(Or(w, m), n) <==> Test(w, n)
  {
  }

  lemma ClearedElsewhere(w: bv32, m: bv32, n: bv32)
    requires Apart(m, n)
    ensures Test(AndNot(w, m), n) <==> Test(w, n)
  {
  }

  /** c is b with frame f marked. */
  ghost predicate MarkedAlso(b: seq<bv32>, c: seq<bv32>, f: byte)
    requires |b| == 8
  {
    |c| == 8 && forall g: byte :: Marked(c, g) <==> g == f || Marked(b, g)
  }

  // ---------- memory ----------

  function Frame(m: seq<byte>, f: byte): seq<byte>
    requires |m| == PAGES * FRAME
  {
    m[f * FRAME..f * FRAME + FRAME]
  }

  /** Entry v of the page table in frame tf. */
  function Entry(m: seq<byte>, tf: byte, v: nat): Pte
    requires |m| == PAGES * FRAME && v < ENTRIES
  {
    var a := tf * FRAME + 4 * v;
    Pte(m[a], m[a + 1], m[a + 2], m[a + 3])
  }

  /** m holds these bytes at address a. */
  predicate BytesAt(m: seq<byte>, a: nat, bytes: seq<byte>) {
    a + |bytes| <= |m| && forall i :: 0 <= i < |bytes| ==> m[a + i] == bytes[i]
  }

  /** The four bytes of an entry, in the order of the struct's members. */
  lemma EntryBytes(m: seq<byte>, tf: byte, v: nat)
    requires |m| == PAGES * FRAME && v < ENTRIES
    ensures var e := Entry(m, tf, v); BytesAt(m, tf * FRAME + 4 * v, [e.pfn, e.valid, e.present, e.protect])
  {
  }

  /** The page table in frame tf. */
  function TableAt(m: seq<byte>, tf: byte): (t: Table)
    requires |m| == PAGES * FRAME
    ensures forall v: nat :: v < ENTRIES ==> t[v] == Entry(m, tf, v)
  {
    seq(ENTRIES, v requires 0 <= v < ENTRIES => Entry(m, tf, v))
  }

  /** f is the first unmarked frame. */
  predicate FirstFree(b: seq<bv32>, f: byte)
    requires |b| == 8
  {
    !Marked(b, f) && forall g: byte :: g < f ==> Marked(b, g)
  }

  // ---------- isolation ----------

  /** What a marked frame is used for: the table of slot i, or page v of slot i. */
  datatype Use = TableOf(i: nat) | PageOf(i: nat, v: nat)

  predicate Live(ps: seq<Proc>, i: nat)
    requires |ps| == MAX_PROCS
  {
    1 <= i < MAX_PROCS && ps[i].state != UNUSED
  }

  /** Is i the first slot with that name? */
  predicate Named(ps: seq<Proc>, i: nat, name: string) {
    i < |ps| && ps[i].name == name && forall j: nat :: j < i ==> ps[j].name != name
  }

  ghost predicate SlotOk(ps: seq<Proc>, o: map<byte, Use>, i: nat)
    requires |ps| == MAX_PROCS && 1 <= i < MAX_PROCS
  {
    && (ps[i].state == UNUSED ==> ps[i].name == "")
    && (ps[i].state != UNUSED ==>
          ps[i].tablePfn in o && o[ps[i].tablePfn] == TableOf(i) && ps[i].ptbr == InMem(ps[i].tablePfn * FRAME))
  }

  ghost predicate EntryOk(m: seq<byte>, ps: seq<Proc>, o: map<byte, Use>, i: nat, v: nat)
    requires |m| == PAGES * FRAME && |ps| == MAX_PROCS && Live(ps, i) && v < ENTRIES
  {
    var e := Entry(m, ps[i].tablePfn, v);
    e.valid != 0 ==> e.pfn in o && o[e.pfn] == PageOf(i, v)
  }

  /** Every table and every valid entry has a marked frame of its own. */
  ghost predicate Isolated(m: seq<byte>, b: seq<bv32>, ps: seq<Proc>, o: map<byte, Use>) {
    && |m| == PAGES * FRAME && |b| == 8 && |ps| == MAX_PROCS
    && (forall f: byte :: f in o <==> Marked(b, f))
    && ps[0].name == "" && ps[0].ptbr == Null
    && (forall i: nat :: 1 <= i < MAX_PROCS ==> SlotOk(ps, o, i))
    && (forall i: nat, v: nat :: Live(ps, i) && v < ENTRIES ==> EntryOk(m, ps, o, i, v))
  }

  /** The frame put to a use, if there is one. */
  ghost predicate Uses(m: seq<byte>, ps: seq<Proc>, u: Use, f: byte)
    requires |m| == PAGES * FRAME && |ps| == MAX_PROCS
  {
    match u
    case TableOf(i) => Live(ps, i) && ps[i].tablePfn == f
    case PageOf(i, v) =>
      && Live(ps, i) && v < ENTRIES
      && Entry(m, ps[i].tablePfn, v).valid != 0 && Entry(m, ps[i].tablePfn, v).pfn == f
  }

  /** Frames put to use are marked, and no frame is put to two uses. */
  lemma FramesDistinct(m: seq<byte>, b: seq<bv32>, ps: seq<Proc>, o: map<byte, Use>, u: Use, w: Use, f: byte)
    requires Isolated(m, b, ps, o) && Uses(m, ps, u, f) && Uses(m, ps, w, f)
    ensures Marked(b, f) && u == w
  {
    assert SlotOk(ps, o, u.i) && SlotOk(ps, o, w.i);
    if u.PageOf? { assert EntryOk(m, ps, o, u.i, u.v); }
    if w.PageOf? { assert EntryOk(m, ps, o, w.i, w.v); }
  }

  // ---------- the pages of all processes ----------

  datatype Content = Content(bytes: seq<byte>, protect: byte, present: byte)

  /** Slot and page number of every valid entry, with the bytes of its frame. */
  ghost function Pages(m: seq<byte>, ps: seq<Proc>): map<(nat, nat), Content>
    requires |m| == PAGES * FRAME && |ps| == MAX_PROCS
  {
    map i: nat, v: nat | i < MAX_PROCS && v < ENTRIES && Live(ps, i) && Entry(m, ps[i].tablePfn, v).valid != 0
      :: (i, v) := ContentOf(m, Entry(m, ps[i].tablePfn, v))
  }

  function ContentOf(m: seq<byte>, e: Pte): Content
    requires |m| == PAGES * FRAME
  {
    Content(Frame(m, e.pfn), e.protect, e.present)
  }

  /** m and n are the same outside frame f. */
  ghost predicate SameOutside(m: seq<byte>, n: seq<byte>, f: byte)
    requires |m| == PAGES * FRAME && |n| == PAGES * FRAME
  {
    forall a :: 0 <= a < PAGES * FRAME && !(f * FRAME <= a < f * FRAME + FRAME) ==> n[a] == m[a]
  }

  lemma SameFrame(m: seq<byte>, n: seq<byte>, f: byte, g: byte)
    requires |m| == PAGES * FRAME && |n| == PAGES * FRAME && SameOutside(m, n, f) && g != f
    ensures Frame(n, g) == Frame(m, g)
    ensures forall v: nat :: v < ENTRIES ==> Entry(n, g, v) == Entry(m, g, v)
  {
  }

  /** Giving out an unmarked frame, whatever is written to it, disturbs no process. */
  lemma NewFrameUnseen(m: seq<byte>, n: seq<byte>, b: seq<bv32>, ps: seq<Proc>, o: map<byte, Use>, f: byte)
    requires Isolated(m, b, ps, o) && !Marked(b, f)
    requires |n| == PAGES * FRAME && SameOutside(m, n, f)
    ensures forall i: nat :: Live(ps, i) ==> ps[i].tablePfn != f
    ensures forall i: nat, v: nat :: Live(ps, i) && v < ENTRIES ==>
          Entry(n, ps[i].tablePfn, v) == Entry(m, ps[i].tablePfn, v)
    ensures forall i: nat :: Live(ps, i) ==> TableAt(n, ps[i].tablePfn) == TableAt(m, ps[i].tablePfn)
    ensures Pages(n, ps) == Pages(m, ps)
  {
    forall i: nat | Live(ps, i) ensures ps[i].tablePfn != f {
      assert SlotOk(ps, o, i);
    }
    forall i: nat, v: nat | Live(ps, i) && v < ENTRIES
      ensures Entry(n, ps[i].tablePfn, v) == Entry(m, ps[i].tablePfn, v)
    {
      SameFrame(m, n, f, ps[i].tablePfn);
    }
    forall i: nat, v: nat | Live(ps, i) && v < ENTRIES && Entry(m, ps[i].tablePfn, v).valid != 0
      ensures ContentOf(n, Entry(n, ps[i].tablePfn, v)) == ContentOf(m, Entry(m, ps[i].tablePfn, v))
    {
      assert EntryOk(m, ps, o, i, v);
      SameFrame(m, n, f, Entry(m, ps[i].tablePfn, v).pfn);
    }
  }

  lemma ZeroTable(m: seq<byte>, f: byte)
    requires |m| == PAGES * FRAME && Frame(m, f) == seq(FRAME, _ => 0)
    ensures forall v: nat :: v < ENTRIES ==> Entry(m, f, v).valid == 0
  {
    forall v: nat | v < ENTRIES ensures Entry(m, f, v).valid == 0 {
      assert Frame(m, f)[4 * v + 1] == 0;
    }
  }

  /** qs is ps with an unused slot i taken by a process whose table is frame f. */
  ghost predicate NewProc(ps: seq<Proc>, qs: seq<Proc>, i: nat, f: byte) {
    && |ps| == MAX_PROCS && |qs| == MAX_PROCS && 1 <= i < MAX_PROCS && ps[i].state == UNUSED
    && qs[i].state != UNUSED && qs[i].tablePfn == f && qs[i].ptbr == InMem(f * FRAME)
    && qs == ps[i := qs[i]]
  }

  /** allocate_proc: slot i gets a zeroed frame for its table, and no page changes. */
  lemma NewTableIsolated(m: seq<byte>, n: seq<byte>, b: seq<bv32>, c: seq<bv32>, ps: seq<Proc>, qs: seq<Proc>,
                         o: map<byte, Use>, i: nat, f: byte)
    requires Isolated(m, b, ps, o) && !Marked(b, f) && MarkedAlso(b, c, f) && NewProc(ps, qs, i, f)
    requires |n| == PAGES * FRAME && SameOutside(m, n, f) && Frame(n, f) == seq(FRAME, _ => 0)
    ensures Isolated(n, c, qs, o[f := TableOf(i)]) && Pages(n, qs) == Pages(m, ps)
  {
    hide Entry, Marked;
    NewFrameUnseen(m, n, b, ps, o, f);
    ZeroTable(n, f);
    NewTablePages(n, ps, qs, i, f);
    hide Pages, SameOutside;
    var p := o[f := TableOf(i)];
    forall j: nat | 1 <= j < MAX_PROCS ensures SlotOk(qs, p, j) {
      assert SlotOk(ps, o, j);
      assert j != i && Live(ps, j) ==> Live(qs, j);
    }
    forall j: nat, v: nat | Live(qs, j) && v < ENTRIES ensures EntryOk(n, qs, p, j, v) {
      if j != i {
        assert SlotOk(ps, o, j);
        assert Live(ps, j) && EntryOk(m, ps, o, j, v);
      }
    }
  }

  lemma NewTablePages(m: seq<byte>, ps: seq<Proc>, qs: seq<Proc>, i: nat, f: byte)
    requires |m| == PAGES * FRAME && NewProc(ps, qs, i, f)
    requires forall v: nat :: v < ENTRIES ==> Entry(m, f, v).valid == 0
    ensures Pages(m, qs) == Pages(m, ps)
  {
    hide Entry;
    assert forall j: nat :: Live(ps, j) ==> Live(qs, j) && qs[j] == ps[j];
    assert forall j: nat :: Live(qs, j) && j != i ==> Live(ps, j);
  }

  /** n is m with entry v of the table in frame tf replaced. */
  ghost predicate EntrySet(m: seq<byte>, n: seq<byte>, tf: byte, v: nat, e: Pte)
    requires |m| == PAGES * FRAME && |n| == PAGES * FRAME && v < ENTRIES
  {
    && Entry(n, tf, v) == e
    && forall a :: 0 <= a < PAGES * FRAME && !(tf * FRAME + 4 * v <= a < tf * FRAME + 4 * v + 4) ==> n[a] == m[a]
  }

  /** Writing entry v of one table leaves other entries and all other frames alone. */
  lemma EntrySetElsewhere(m: seq<byte>, n: seq<byte>, tf: byte, v: nat, e: Pte)
    requires |m| == PAGES * FRAME && |n| == PAGES * FRAME && v < ENTRIES && EntrySet(m, n, tf, v, e)
    ensures forall g: byte, w: nat :: w < ENTRIES && (g != tf || w != v) ==> Entry(n, g, w) == Entry(m, g, w)
    ensures forall g: byte :: g != tf ==> Frame(n, g) == Frame(m, g)
  {
  }

  /** Storing a page in a new frame f and pointing entry v of slot i to it. */
  ghost predicate PageStored(m: seq<byte>, n: seq<byte>, k: seq<byte>, tf: byte, v: nat, f: byte, access: byte)
    requires v < ENTRIES
  {
    && |m| == PAGES * FRAME && |n| == PAGES * FRAME && |k| == PAGES * FRAME
    && SameOutside(m, n, f) && EntrySet(n, k, tf, v, Pte(f, 1, 1, access))
  }

  /** Entry w of slot j after page v of slot i was put into frame f. */
  function EntryAfter(m: seq<byte>, ps: seq<Proc>, i: nat, v: nat, f: byte, access: byte, j: nat, w: nat): Pte
    requires |m| == PAGES * FRAME && |ps| == MAX_PROCS && Live(ps, j) && w < ENTRIES
  {
    if i == j && v == w then Pte(f, 1, 1, access) else Entry(m, ps[j].tablePfn, w)
  }

  lemma OtherEntriesKept(m: seq<byte>, n: seq<byte>, k: seq<byte>, b: seq<bv32>, ps: seq<Proc>, o: map<byte, Use>,
                         i: nat, v: nat, f: byte, access: byte, j: nat, w: nat)
    requires Isolated(m, b, ps, o) && !Marked(b, f) && Live(ps, i) && v < ENTRIES && Live(ps, j) && w < ENTRIES
    requires PageStored(m, n, k, ps[i].tablePfn, v, f, access)
    ensures Entry(k, ps[j].tablePfn, w) == EntryAfter(m, ps, i, v, f, access, j, w)
  {
    hide Marked, Entry, EntrySet, Pages, EntryOk, SameOutside;
    NewFrameUnseen(m, n, b, ps, o, f);
    EntrySetHere(n, k, ps[i].tablePfn, v, Pte(f, 1, 1, access));
    assert SlotOk(ps, o, i) && SlotOk(ps, o, j);
    if i != j || v != w { EntrySetElsewhere(n, k, ps[i].tablePfn, v, Pte(f, 1, 1, access)); }
  }

  lemma EntrySetHere(m: seq<byte>, n: seq<byte>, tf: byte, v: nat, e: Pte)
    requires |m| == PAGES * FRAME && |n| == PAGES * FRAME && v < ENTRIES && EntrySet(m, n, tf, v, e)
    ensures Entry(n, tf, v) == e
  {
  }

  /** load_proc_page writes the entry before it copies the page; the two do not overlap. */
  lemma EntryThenFrame(m: seq<byte>, z: seq<byte>, w: seq<byte>, k: seq<byte>, tf: byte, v: nat, f: byte, access: byte)
      returns (n: seq<byte>)
    requires |m| == PAGES * FRAME && |z| == PAGES * FRAME && |w| == PAGES * FRAME && |k| == PAGES * FRAME
    requires v < ENTRIES && f != tf
    requires SameOutside(m, z, f) && EntrySet(z, w, tf, v, Pte(f, 1, 1, access)) && SameOutside(w, k, f)
    ensures PageStored(m, n, k, tf, v, f, access) && Frame(n, f) == Frame(k, f)
  {
    n := seq(PAGES * FRAME, a requires 0 <= a < PAGES * FRAME =>
        if f * FRAME <= a < f * FRAME + FRAME then k[a] else m[a]);
  }

  /** load_proc_page keeps every frame to one use ... */
  lemma NewPageIsolated(m: seq<byte>, n: seq<byte>, k: seq<byte>, b: seq<bv32>, c: seq<bv32>, ps: seq<Proc>,
                        o: map<byte, Use>, i: nat, v: nat, f: byte, access: byte)
    requires Isolated(m, b, ps, o) && !Marked(b, f) && MarkedAlso(b, c, f) && Live(ps, i) && v < ENTRIES
    requires PageStored(m, n, k, ps[i].tablePfn, v, f, access)
    ensures Isolated(k, c, ps, o[f := PageOf(i, v)])
  {
    hide Marked, Entry, PageStored;
    StoredLength(m, n, k, ps[i].tablePfn, v, f, access);
    var p := o[f := PageOf(i, v)];
    forall j: nat | 1 <= j < MAX_PROCS ensures SlotOk(ps, p, j) {
      assert SlotOk(ps, o, j);
    }
    forall j: nat, w: nat | Live(ps, j) && w < ENTRIES ensures EntryOk(k, ps, p, j, w) {
      OtherEntriesKept(m, n, k, b, ps, o, i, v, f, access, j, w);
      assert EntryOk(m, ps, o, j, w);
    }
  }

  lemma StoredLength(m: seq<byte>, n: seq<byte>, k: seq<byte>, tf: byte, v: nat, f: byte, access: byte)
    requires v < ENTRIES && PageStored(m, n, k, tf, v, f, access)
    ensures |n| == PAGES * FRAME && |k| == PAGES * FRAME
    ensures forall g: byte :: g != f && g != tf ==> Frame(k, g) == Frame(m, g)
    ensures f != tf ==> Frame(k, f) == Frame(n, f)
  {
    EntrySetElsewhere(n, k, tf, v, Pte(f, 1, 1, access));
    forall g: byte | g != f && g != tf ensures Frame(k, g) == Frame(m, g) {
      SameFrame(m, n, f, g);
    }
  }

  /** ... and changes exactly the page it loads. */
  lemma NewPageOnly(m: seq<byte>, n: seq<byte>, k: seq<byte>, b: seq<bv32>, ps: seq<Proc>, o: map<byte, Use>,
                    i: nat, v: nat, f: byte, access: byte)
    requires Isolated(m, b, ps, o) && !Marked(b, f) && Live(ps, i) && v < ENTRIES
    requires PageStored(m, n, k, ps[i].tablePfn, v, f, access)
    ensures Pages(k, ps) == Pages(m, ps)[(i, v) := Content(Frame(n, f), access, 1)]
  {
    hide Marked, Entry, PageStored, Frame;
    StoredLength(m, n, k, ps[i].tablePfn, v, f, access);
    assert SlotOk(ps, o, i);
    forall j: nat, w: nat | Live(ps, j) && w < ENTRIES
      ensures Entry(k, ps[j].tablePfn, w) == EntryAfter(m, ps, i, v, f, access, j, w)
      ensures !(i == j && v == w) && Entry(m, ps[j].tablePfn, w).valid != 0
              ==> Frame(k, Entry(m, ps[j].tablePfn, w).pfn) == Frame(m, Entry(m, ps[j].tablePfn, w).pfn)
    {
      OtherEntriesKept(m, n, k, b, ps, o, i, v, f, access, j, w);
      assert EntryOk(m, ps, o, j, w);
    }
  }

  // ---------- address translation ----------

  function Vpn(va: int): schar {
    SChar(va / 256)
  }

  function Off(va: int): schar {
    SChar(va)
  }

  /** pfn << 8 | off: a negative offset has all its high bits set. */
  function Join(pfn: schar, off: schar): int {
    if off < 0 then off else pfn * 256 + off
  }

  predicate InTlb(tlb: seq<Tlbe>, vpn: schar) {
    exists i :: 0 <= i < |tlb| && tlb[i].valid && tlb[i].vpn == vpn
  }

  /** The frame of the first matching entry. */
  function HitPfn(tlb: seq<Tlbe>, vpn: schar): schar
    requires InTlb(tlb, vpn)
    decreases |tlb|
  {
    if tlb[0].valid && tlb[0].vpn == vpn then tlb[0].pfn
    else
      assert InTlb(tlb[1..], vpn) by {
        var i :| 0 <= i < |tlb| && tlb[i].valid && tlb[i].vpn == vpn;
        assert tlb[1..][i - 1] == tlb[i];
      }
      HitPfn(tlb[1..], vpn)
  }

  lemma {:induction false} HitPfnIs(tlb: seq<Tlbe>, vpn: schar, i: nat)
    requires i < |tlb| && tlb[i].valid && tlb[i].vpn == vpn
    requires forall j :: 0 <= j < i ==> !(tlb[j].valid && tlb[j].vpn == vpn)
    ensures InTlb(tlb, vpn) && HitPfn(tlb, vpn) == tlb[i].pfn
    decreases i
  {
    if i > 0 { HitPfnIs(tlb[1..], vpn, i - 1); }
  }

  /** Every valid entry repeats a valid, present entry of the page table. */
  predicate Agree(tlb: seq<Tlbe>, t: Table) {
    forall i :: 0 <= i < |tlb| && tlb[i].valid ==> Repeats(tlb[i], t)
  }

  predicate Repeats(c: Tlbe, t: Table) {
    0 <= c.vpn < ENTRIES && t[c.vpn].valid != 0 && t[c.vpn].present != 0 && c.pfn == SChar(t[c.vpn].pfn)
  }

  predicate Full(tlb: seq<Tlbe>) {
    forall i :: 0 <= i < |tlb| ==> tlb[i].valid
  }

  predicate Empty(tlb: seq<Tlbe>) {
    forall i :: 0 <= i < |tlb| ==> !tlb[i].valid
  }

  /** The translation goes into every invalid entry, or else into the first. */
  function Filled(tlb: seq<Tlbe>, vpn: schar, pfn: schar): (r: seq<Tlbe>)
    requires |tlb| == TLB_SIZE
    ensures |r| == TLB_SIZE
  {
    if Full(tlb) then tlb[0 := Tlbe(true, vpn, pfn)]
    else seq(TLB_SIZE, i requires 0 <= i < TLB_SIZE => if tlb[i].valid then tlb[i] else Tlbe(true, vpn, pfn))
  }

  /** What the page table alone answers. */
  function Walk(e: Pte, off: schar, access: int): int {
    if e.valid == 0 then -1
    else if e.present == 0 then -3
    else if access != SChar(e.protect) then -2
    else Join(SChar(e.pfn), off)
  }

  predicate Granted(e: Pte, access: int) {
    e.valid != 0 && e.present != 0 && access == SChar(e.protect)
  }

  /** va2pa's answer: protection is looked at only when the TLB misses. */
  function Answered(tlb: seq<Tlbe>, e: Pte, va: int, access: int): (pa: int)
    ensures pa < PAGES * FRAME
  {
    if InTlb(tlb, Vpn(va)) then Join(HitPfn(tlb, Vpn(va)), Off(va)) else Walk(e, Off(va), access)
  }

  /** The same, with a TLB that agrees with the table. */
  function Translated(tlb: seq<Tlbe>, e: Pte, va: int, access: int): int {
    if InTlb(tlb, Vpn(va)) then Join(SChar(e.pfn), Off(va)) else Walk(e, Off(va), access)
  }

  /** The TLB after va2pa. */
  function TlbAfter(tlb: seq<Tlbe>, e: Pte, va: int, access: int): (r: seq<Tlbe>)
    requires |tlb| == TLB_SIZE
    ensures |r| == TLB_SIZE
  {
    if !InTlb(tlb, Vpn(va)) && Granted(e, access) then Filled(tlb, Vpn(va), SChar(e.pfn)) else tlb
  }

  lemma AgreeKept(tlb: seq<Tlbe>, t: Table, va: int, access: int)
    requires |tlb| == TLB_SIZE && 0 <= Vpn(va) < ENTRIES && Agree(tlb, t)
    ensures Agree(TlbAfter(tlb, t[Vpn(va)], va, access), t)
    ensures Granted(t[Vpn(va)], access) ==> InTlb(TlbAfter(tlb, t[Vpn(va)], va, access), Vpn(va))
  {
    hide SChar;
    var e := t[Vpn(va)];
    if !InTlb(tlb, Vpn(va)) && Granted(e, access) {
      var r := Filled(tlb, Vpn(va), SChar(e.pfn));
      if Full(tlb) {
        assert r[0].valid && r[0].vpn == Vpn(va);
      } else {
        var i :| 0 <= i < |tlb| && !tlb[i].valid;
        assert r[i].valid && r[i].vpn == Vpn(va);
      }
    }
  }

  /** What a miss answers: no entry, page on disk, other access, or the address. A negative offset is
      answered as itself, whatever the frame. */
  lemma MissAnswers(tlb: seq<Tlbe>, e: Pte, va: int, access: int)
    requires !InTlb(tlb, Vpn(va))
    ensures var pa := Answered(tlb, e, va, access);
            && (va % 256 < 128 ==>
                  && (pa == -1 <==> e.valid == 0)
                  && (pa == -3 <==> e.valid != 0 && e.present == 0)
                  && (pa == -2 <==> e.valid != 0 && e.present != 0 && access != SChar(e.protect)))
            && (va % 256 >= 128 ==>
                  pa == if e.valid == 0 then -1
                        else if e.present == 0 then -3
                        else if access != SChar(e.protect) then -2
                        else va % 256 - 256)
  {
  }

  /** Where some entry is invalid, all invalid ones take the translation and the others stay; else
      the first one is evicted. */
  lemma FilledIs(tlb: seq<Tlbe>, vpn: schar, pfn: schar, i: nat)
    requires |tlb| == TLB_SIZE && i < TLB_SIZE
    ensures var r := Filled(tlb, vpn, pfn);
            if exists j :: 0 <= j < TLB_SIZE && !tlb[j].valid
            then r[i] == if tlb[i].valid then tlb[i] else Tlbe(true, vpn, pfn)
            else r[i] == if i == 0 then Tlbe(true, vpn, pfn) else tlb[i]
  {
  }

  /** A translation just filled in is the one that is hit. */
  lemma FilledHits(tlb: seq<Tlbe>, vpn: schar, pfn: schar)
    requires |tlb| == TLB_SIZE && !InTlb(tlb, vpn)
    ensures InTlb(Filled(tlb, vpn, pfn), vpn) && HitPfn(Filled(tlb, vpn, pfn), vpn) == pfn
  {
    var r := Filled(tlb, vpn, pfn);
    if Full(tlb) {
      assert r[0].valid && r[0].vpn == vpn;
    } else {
      var i :| 0 <= i < |tlb| && !tlb[i].valid;
      assert r[i].valid && r[i].vpn == vpn;
    }
    var k := FirstHit(r, vpn);
    HitPfnIs(r, vpn, k);
  }

  lemma AgreeAnswers(tlb: seq<Tlbe>, t: Table, va: int, access: int)
    requires 0 <= Vpn(va) < ENTRIES && Agree(tlb, t)
    ensures Answered(tlb, t[Vpn(va)], va, access) == Translated(tlb, t[Vpn(va)], va, access)
    ensures InTlb(tlb, Vpn(va)) ==> t[Vpn(va)].valid != 0 && t[Vpn(va)].present != 0
  {
    hide SChar;
    if InTlb(tlb, Vpn(va)) {
      var i: nat := FirstHit(tlb, Vpn(va));
      HitPfnIs(tlb, Vpn(va), i);
    }
  }

  /** With a TLB that agrees with the table, a translation answers with an address exactly when
      its entry is in the table and present, allowed or already cached, and its frame and offset
      are below 128; the address is then the one in the table. */
  lemma TranslationIs(tlb: seq<Tlbe>, t: Table, va: int, access: int)
    requires 0 <= Vpn(va) < ENTRIES && Agree(tlb, t)
    ensures var e, pa := t[Vpn(va)], Answered(tlb, t[Vpn(va)], va, access);
            && (pa >= 0 <==> (InTlb(tlb, Vpn(va)) || Granted(e, access)) && e.pfn < 128 && va % 256 < 128)
            && (pa >= 0 ==> e.valid != 0 && e.present != 0 && pa == e.pfn * 256 + va % 256)
  {
    AgreeAnswers(tlb, t, va, access);
  }

  lemma FirstHit(tlb: seq<Tlbe>, vpn: schar) returns (i: nat)
    requires InTlb(tlb, vpn)
    ensures i < |tlb| && tlb[i].valid && tlb[i].vpn == vpn
    ensures forall j :: 0 <= j < i ==> !(tlb[j].valid && tlb[j].vpn == vpn)
  {
    i := 0;
    while !(tlb[i].valid && tlb[i].vpn == vpn)
      invariant i < |tlb| && forall j :: 0 <= j < i ==> !(tlb[j].valid && tlb[j].vpn == vpn)
      decreases |tlb| - i
    {
      i := i + 1;
    }
  }

  datatype Access = Access(va: int, access: int)

  /** The TLB after a run of translations from one page table. */
  function TlbRun(tlb: seq<Tlbe>, t: Table, run: seq<Access>): (r: seq<Tlbe>)
    requires |tlb| == TLB_SIZE && forall i :: 0 <= i < |run| ==> 0 <= Vpn(run[i].va) < ENTRIES
    ensures |r| == TLB_SIZE
    decreases |run|
  {
    if run == [] then tlb
    else TlbRun(TlbAfter(tlb, t[Vpn(run[0].va)], run[0].va, run[0].access), t, run[1..])
  }

  lemma {:induction false} RunAgrees(tlb: seq<Tlbe>, t: Table, run: seq<Access>)
    requires |tlb| == TLB_SIZE && forall i :: 0 <= i < |run| ==> 0 <= Vpn(run[i].va) < ENTRIES
    requires Agree(tlb, t)
    ensures Agree(TlbRun(tlb, t, run), t)
    decreases |run|
  {
    hide SChar, Agree, TlbAfter;
    if run != [] {
      AgreeKept(tlb, t, run[0].va, run[0].access);
      RunAgrees(TlbAfter(tlb, t[Vpn(run[0].va)], run[0].va, run[0].access), t, run[1..]);
    }
  }

  /** The same after any run from an invalidated TLB. */
  lemma TranslationAfterRun(tlb: seq<Tlbe>, t: Table, run: seq<Access>, va: int, access: int)
    requires |tlb| == TLB_SIZE && forall i :: 0 <= i < |run| ==> 0 <= Vpn(run[i].va) < ENTRIES
    requires Empty(tlb) && 0 <= Vpn(va) < ENTRIES
    ensures var now, e := TlbRun(tlb, t, run), t[Vpn(va)];
            var pa := Answered(now, e, va, access);
            && (pa >= 0 <==> (InTlb(now, Vpn(va)) || Granted(e, access)) && e.pfn < 128 && va % 256 < 128)
            && (pa >= 0 ==> e.valid != 0 && e.present != 0 && pa == e.pfn * 256 + va % 256)
  {
    hide TlbRun, Answered, InTlb, Granted;
    RunAgrees(tlb, t, run);
    TranslationIs(TlbRun(tlb, t, run), t, va, access);
  }

  // ---------- loads and switches under a TLB ----------

  /** The table of slot j after page v of slot i was put into frame f. */
  function TableNow(m: seq<byte>, ps: seq<Proc>, i: nat, v: nat, f: byte, access: byte, j: nat): Table
    requires |m| == PAGES * FRAME && |ps| == MAX_PROCS && Live(ps, j) && v < ENTRIES
  {
    var t := TableAt(m, ps[j].tablePfn);
    if j == i then t[v := Pte(f, 1, 1, access)] else t
  }

  /** A load changes one entry of one table. */
  lemma TablesAfterLoad(m: seq<byte>, n: seq<byte>, k: seq<byte>, b: seq<bv32>, ps: seq<Proc>, o: map<byte, Use>,
                        i: nat, v: nat, f: byte, access: byte)
    requires Isolated(m, b, ps, o) && !Marked(b, f) && Live(ps, i) && v < ENTRIES
    requires PageStored(m, n, k, ps[i].tablePfn, v, f, access)
    ensures |k| == PAGES * FRAME
    ensures forall j: nat :: Live(ps, j) ==> TableAt(k, ps[j].tablePfn) == TableNow(m, ps, i, v, f, access, j)
  {
    hide Entry, PageStored, Marked;
    StoredLength(m, n, k, ps[i].tablePfn, v, f, access);
    forall j: nat | Live(ps, j)
      ensures TableAt(k, ps[j].tablePfn) == TableNow(m, ps, i, v, f, access, j)
    {
      forall w: nat | w < ENTRIES
        ensures Entry(k, ps[j].tablePfn, w) == EntryAfter(m, ps, i, v, f, access, j, w)
      {
        OtherEntriesKept(m, n, k, b, ps, o, i, v, f, access, j, w);
      }
    }
  }

  /** Pointing a page to a frame that it did not have keeps the TLB right exactly when the page
      was not cached. */
  lemma LoadAgrees(tlb: seq<Tlbe>, t: Table, v: nat, f: byte, access: byte)
    requires v < ENTRIES && Agree(tlb, t) && (t[v].valid != 0 ==> t[v].pfn != f)
    ensures Agree(tlb, t[v := Pte(f, 1, 1, access)]) <==> !InTlb(tlb, v)
  {
    if InTlb(tlb, v) {
      var j :| 0 <= j < |tlb| && tlb[j].valid && tlb[j].vpn == v;
      assert Repeats(tlb[j], t) && !Repeats(tlb[j], t[v := Pte(f, 1, 1, access)]);
    }
  }

  /** A TLB that is right for one process is right for another only when it is empty: no page
      of one is in a frame of the other. */
  lemma SwitchAgrees(tlb: seq<Tlbe>, m: seq<byte>, b: seq<bv32>, ps: seq<Proc>, o: map<byte, Use>, i: nat, j: nat)
    requires Isolated(m, b, ps, o) && Live(ps, i) && Live(ps, j) && Agree(tlb, TableAt(m, ps[i].tablePfn))
    ensures Agree(tlb, TableAt(m, ps[j].tablePfn)) <==> i == j || Empty(tlb)
  {
    hide Entry, Marked;
    if i != j && !Empty(tlb) {
      var c :| 0 <= c < |tlb| && tlb[c].valid;
      assert Repeats(tlb[c], TableAt(m, ps[i].tablePfn));
      assert EntryOk(m, ps, o, i, tlb[c].vpn) && EntryOk(m, ps, o, j, tlb[c].vpn);
      assert !Repeats(tlb[c], TableAt(m, ps[j].tablePfn));
    }
  }
}
