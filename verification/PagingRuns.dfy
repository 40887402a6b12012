/** Calls of memorylab/paging.c in a row: what a process reads after a load and after a switch. */
module PagingRuns {
  import opened PagingModel
  import opened Paging

  /** Page v of the running process is `bytes`, in the frame that was the first free of bitmap b. */
  ghost predicate JustLoaded(c: Machine, b: seq<bv32>, v: nat, bytes: seq<byte>, access: byte)
    requires c.Valid() && c.ptbr.InMem? && v < ENTRIES && |b| == 8
    reads c, c.mem, c.pagebitmap, c.procs, c.tlb
  {
    var e, pages := c.PageTable()[v], c.AllPages();
    && FirstFree(b, e.pfn) && e == Pte(e.pfn, 1, 1, access)
    && (c.runningProc, v) in pages && pages[(c.runningProc, v)].bytes == bytes
  }

  /** A page just loaded for the running process is what it reads, if the page was not cached:
      the byte, exactly when the frame taken and the offset fit a plain char. */
  method LoadThenAccess(c: Machine, name: string, v: nat, off: byte, bytes: seq<byte>, access: schar)
      returns (loaded: Answer, r: Answer)
    requires c.Valid() && c.ptbr.InMem? && c.TlbAgrees() && Named(c.procs[..], c.runningProc, name)
    requires v < ENTRIES && |bytes| == FRAME && !InTlb(c.tlb[..], v)
    modifies c`uses, c.mem, c.pagebitmap, c.tlb
    ensures loaded == Panics || loaded == Returns(0)
    ensures loaded == Panics <==> forall f: byte :: Marked(old(c.pagebitmap[..]), f)
    ensures loaded != Panics ==>
              && c.Valid() && c.ptbr.InMem? && JustLoaded(c, old(c.pagebitmap[..]), v, bytes, access % 256)
              && r == if c.PageTable()[v].pfn < 128 && off < 128 then Returns(SChar(bytes[off])) else Panics
  {
    hide Machine.Valid, Marked, FirstFree, Agree, Pages, InTlb, TableAt, SChar, Named, JustLoaded;
    loaded := LoadRunning(c, name, v, bytes, access);
    if loaded == Panics { return loaded, Panics; }
    r := AccessLoaded(c, old(c.pagebitmap[..]), v, off, bytes, access);
  }

  method AccessLoaded(c: Machine, ghost b: seq<bv32>, v: nat, off: byte, ghost bytes: seq<byte>, access: schar)
      returns (r: Answer)
    requires c.Valid() && c.ptbr.InMem? && c.TlbAgrees() && v < ENTRIES && |b| == 8 && |bytes| == FRAME
    requires JustLoaded(c, b, v, bytes, access % 256)
    modifies c.tlb
    ensures c.Valid() && JustLoaded(c, b, v, bytes, access % 256)
    ensures r == if c.PageTable()[v].pfn < 128 && off < 128 then Returns(SChar(bytes[off])) else Panics
  {
    hide Machine.Valid, FirstFree, Agree, Pages, InTlb, Answered, TlbAfter, TableAt, SChar, Vpn, Frame, Granted;
    VpnOf(v, off);
    GrantedAccess(access);
    r := c.MemAccess(v * 256 + off, access);
  }

  method LoadRunning(c: Machine, name: string, v: nat, bytes: seq<byte>, access: schar) returns (loaded: Answer)
    requires c.Valid() && c.ptbr.InMem? && c.TlbAgrees() && Named(c.procs[..], c.runningProc, name)
    requires v < ENTRIES && |bytes| == FRAME && !InTlb(c.tlb[..], v)
    modifies c`uses, c.mem, c.pagebitmap
    ensures loaded == Panics || loaded == Returns(0)
    ensures loaded == Panics <==> forall f: byte :: Marked(old(c.pagebitmap[..]), f)
    ensures loaded != Panics ==>
              c.Valid() && c.TlbAgrees() && JustLoaded(c, old(c.pagebitmap[..]), v, bytes, access % 256)
  {
    hide Machine.Valid, Marked, FirstFree, Agree, Pages, InTlb, TableAt;
    RunningNamed(c, name);
    loaded := c.LoadProcPage(name, v, bytes, access);
  }

  lemma RunningNamed(c: Machine, name: string)
    requires c.Valid() && c.ptbr.InMem? && Named(c.procs[..], c.runningProc, name)
    ensures name != ""
  {
    NamedSlot(c.mem[..], c.pagebitmap[..], c.procs[..], c.uses, c.runningProc, name);
  }

  lemma VpnOf(v: nat, off: byte)
    requires v < ENTRIES
    ensures Vpn(v * 256 + off) == v && (v * 256 + off) % 256 == off
  {
  }

  lemma GrantedAccess(access: schar)
    ensures forall f: byte :: Granted(Pte(f, 1, 1, access % 256), access)
  {
  }

  /** The page of that address is cached, and the address can be answered. */
  ghost predicate CachedHere(c: Machine, va: int)
    requires c.Valid() && c.ptbr != Null && 0 <= Vpn(va) < ENTRIES
    reads c, c.mem, c.pagebitmap, c.procs, c.tlb
  {
    InTlb(c.tlb[..], Vpn(va)) && c.PteOf(va).pfn < 128 && va % 256 < 128
  }

  /** Without invalidatetlb in between, a page that the earlier process had cached is read by the
      next one in place of its own. */
  method SwitchThenAccess(c: Machine, name: string, va: int, access: int) returns (r: Answer)
    requires c.Valid() && c.ptbr.InMem? && c.TlbAgrees() && name != "" && 0 <= Vpn(va) < ENTRIES
    requires (exists j: nat :: Named(c.procs[..], j, name)) && c.procs[c.runningProc].name != name
    requires CachedHere(c, va)
    modifies c, c.procs, c.tlb
    ensures c.Valid() && c.runningProc != old(c.runningProc) && c.procs[c.runningProc].name == name
    ensures (old(c.runningProc), Vpn(va) as nat) in c.AllPages()
    ensures r == Returns(SChar(c.AllPages()[(old(c.runningProc), Vpn(va) as nat)].bytes[va % 256]))
  {
    hide Machine.Valid, Marked, Agree, Pages, InTlb, TableAt, SChar, Answered, Frame, Switched;
    CachedByte(c.tlb[..], c.PageTable(), c.mem[..], va, access);
    PageByte(c.mem[..], c.procs[..], c.runningProc, Vpn(va));
    var d := c.Dispatcher(name);
    r := c.MemAccess(va, access);
  }

  /** A cached address is answered whatever the table in use says. */
  lemma CachedByte(tlb: seq<Tlbe>, t: Table, m: seq<byte>, va: int, access: int)
    requires |m| == PAGES * FRAME && 0 <= Vpn(va) < ENTRIES && Agree(tlb, t) && InTlb(tlb, Vpn(va))
    requires t[Vpn(va)].pfn < 128 && va % 256 < 128
    ensures t[Vpn(va)].valid != 0
    ensures forall e: Pte :: 0 <= Answered(tlb, e, va, access)
                && m[Answered(tlb, e, va, access)] == Frame(m, t[Vpn(va)].pfn)[va % 256]
  {
    AddressedByte(tlb, t, m, va, access);
    hide Frame, Vpn, Off, Join, InTlb;
    assert forall e: Pte :: Answered(tlb, e, va, access) == Answered(tlb, t[Vpn(va)], va, access);
  }

  /** With invalidatetlb in between it reads its own page, or panics when it has none that it may
      read at that address. */
  method SwitchInvalidateAccess(c: Machine, name: string, va: int, access: int) returns (r: Answer)
    requires c.Valid() && name != "" && 0 <= Vpn(va) < ENTRIES
    requires exists j: nat :: Named(c.procs[..], j, name)
    modifies c, c.procs, c.tlb
    ensures c.Valid() && c.ptbr.InMem? && c.TlbAgrees() && c.procs[c.runningProc].name == name
    ensures c.AllPages() == old(c.AllPages())
    ensures r.Returns? <==> Granted(c.PteOf(va), access) && c.PteOf(va).pfn < 128 && va % 256 < 128
    ensures r.Returns? ==>
              && (c.runningProc, Vpn(va) as nat) in c.AllPages()
              && r.value == SChar(c.AllPages()[(c.runningProc, Vpn(va) as nat)].bytes[va % 256])
  {
    hide Machine.Valid, Marked, Pages, TableAt, SChar, Granted, Answered, Agree;
    var d := c.Dispatcher(name);
    c.InvalidateTlb();
    assert Empty(c.tlb[..]);
    r := c.MemAccess(va, access);
  }

  /** A bitmap whose first n frames are marked. */
  ghost predicate MarkedBelow(b: seq<bv32>, n: nat)
    requires |b| == 8
  {
    forall f: byte :: Marked(b, f) <==> f < n
  }

  lemma NextFrame(b: seq<bv32>, c: seq<bv32>, n: nat, f: byte)
    requires |b| == 8 && MarkedBelow(b, n) && FirstFree(b, f) && MarkedAlso(b, c, f)
    ensures f == n && MarkedBelow(c, n + 1)
  {
    hide Marked;
    assert n < PAGES ==> !Marked(b, n);
  }

  /** The table that main uses before any dispatch. */
  function MainTable(): Table {
    [Pte(1, 1, 1, 1), Pte(2, 1, 1, 2), Pte(3, 1, 0, 4)] + seq(61, _ => Pte(0, 0, 0, 0))
  }

  /** Lines 446-454: the translations that main asks for before any dispatch. The third hits although
      the access is not the page's, and the last finds its page on disk; none leaves an entry for
      page 3. */
  method MainTranslations(c: Machine) returns (a: int, b: int, d: int, e: int)
    requires c.Valid()
    modifies c`ptbr, c.tlb
    ensures a == 0x105 && b == 0x20a && d == 0x10a && e == -3
    ensures c.Valid() && c.AllPages() == old(c.AllPages()) && !InTlb(c.tlb[..], 3)
    ensures c.ptbr != Null
  {
    hide Machine.Valid, Agree, Pages, TableAt, Answered, InTlb, TlbAfter, MainTable, Granted;
    c.UseTable(MainTable());
    c.InvalidateTlb();
    MainAnswers(c.tlb[..]);
    a := c.Va2pa(0x005, 1);
    b := c.Va2pa(0x10a, 2);
    d := c.Va2pa(0x00a, 2);
    e := c.Va2pa(0x20a, 4);
  }

  /** The TLB while main translates: full of page 0, then page 1 in place of the first entry. */
  lemma MainAnswers(tlb: seq<Tlbe>)
    requires |tlb| == TLB_SIZE && Empty(tlb)
    ensures var t := MainTable();
            var t1 := TlbAfter(tlb, t[0], 0x005, 1);
            var t2 := TlbAfter(t1, t[1], 0x10a, 2);
            && Vpn(0x005) == Vpn(0x00a) == 0 && Vpn(0x10a) == 1 && Vpn(0x20a) == 2
            && Answered(tlb, t[0], 0x005, 1) == 0x105 && Answered(t1, t[1], 0x10a, 2) == 0x20a
            && TlbAfter(t2, t[0], 0x00a, 2) == t2 && Answered(t2, t[0], 0x00a, 2) == 0x10a
            && TlbAfter(t2, t[2], 0x20a, 4) == t2 && Answered(t2, t[2], 0x20a, 4) == -3
            && !InTlb(t2, 3)
  {
    var t := MainTable();
    var first, second := Tlbe(true, 0, 1), Tlbe(true, 1, 2);
    var t1 := TlbAfter(tlb, t[0], 0x005, 1);
    NotInEmpty(tlb, 0);
    assert t1 == [first, first, first, first];
    var t2 := TlbAfter(t1, t[1], 0x10a, 2);
    assert !InTlb(t1, 1) && t2 == [second, first, first, first];
    assert t2[1].valid && t2[1].vpn == 0;
    HitPfnIs(t2, 0, 1);
  }

  lemma NotInEmpty(tlb: seq<Tlbe>, w: schar)
    requires Empty(tlb)
    ensures !InTlb(tlb, w)
  {
  }

  /** Lines 456-467: two processes, each with its own page 3. */
  method MainLoads(c: Machine, first: seq<byte>, second: seq<byte>)
    requires c.Valid() && c.AllPages() == map[] && c.ptbr != Null && |first| == |second| == FRAME
    requires MarkedBelow(c.pagebitmap[..], 0)
    requires forall i :: 0 <= i < MAX_PROCS ==> c.procs[i] == Proc("", UNUSED, 0, Null)
    modifies c`uses, c.mem, c.pagebitmap, c.procs
    ensures c.Valid() && Named(c.procs[..], 1, "Gusty") && Named(c.procs[..], 2, "Coletta")
    ensures Live(c.procs[..], 1) && c.TableOfSlot(1)[3] == Pte(2, 1, 1, 3)
    ensures c.AllPages() == map[(1, 3) := Content(first, 3, 1), (2, 3) := Content(second, 3, 1)]
  {
    hide Machine.Valid, Marked, Agree, Pages, TableAt, InTlb, FirstFree, MarkedAlso, MarkedBelow;
    MainProcs(c);
    ghost var b := c.pagebitmap[..];
    NotAllMarked(b, 2);
    var loaded := c.LoadProcPage("Gusty", 3, first, 3);
    NextFrame(b, c.pagebitmap[..], 2, c.TableOfSlot(1)[3].pfn);
    NotAllMarked(c.pagebitmap[..], 3);
    loaded := c.LoadProcPage("Coletta", 3, second, 3);
  }

  lemma NotAllMarked(b: seq<bv32>, n: byte)
    requires |b| == 8 && MarkedBelow(b, n)
    ensures exists f: byte :: !Marked(b, f)
  {
    assert !Marked(b, n);
  }

  method MainProcs(c: Machine)
    requires c.Valid() && c.AllPages() == map[] && MarkedBelow(c.pagebitmap[..], 0)
    requires forall i :: 0 <= i < MAX_PROCS ==> c.procs[i] == Proc("", UNUSED, 0, Null)
    modifies c`uses, c.mem, c.pagebitmap, c.procs
    ensures c.Valid() && c.AllPages() == map[] && MarkedBelow(c.pagebitmap[..], 2)
    ensures Named(c.procs[..], 1, "Gusty") && Named(c.procs[..], 2, "Coletta")
    ensures Live(c.procs[..], 1) && Live(c.procs[..], 2)
  {
    hide Machine.Valid, Marked, Pages, TableAt, FirstFree, MarkedAlso, MarkedBelow;
    ghost var b := c.pagebitmap[..];
    NotAllMarked(b, 0);
    assert !Live(c.procs[..], 1);
    var slot := c.AllocateProc("Gusty");
    NextFrame(b, c.pagebitmap[..], 0, c.procs[slot.value].tablePfn);
    b := c.pagebitmap[..];
    NotAllMarked(b, 1);
    assert !Live(c.procs[..], 2);
    slot := c.AllocateProc("Coletta");
    NextFrame(b, c.pagebitmap[..], 1, c.procs[slot.value].tablePfn);
  }

  /** dispatcher, then memaccess, as main does without a look at the TLB. */
  method DispatchAndRead(c: Machine, name: string, va: int, access: int) returns (r: Answer)
    requires c.Valid() && name != "" && 0 <= Vpn(va) < ENTRIES
    requires exists j: nat :: Named(c.procs[..], j, name)
    modifies c`ptbr, c`runningProc, c`statusreg, c.procs, c.tlb
    ensures c.Valid() && c.AllPages() == old(c.AllPages()) && Named(old(c.procs[..]), c.runningProc, name)
    ensures c.ptbr.InMem? && Live(old(c.procs[..]), c.runningProc)
    ensures SameNames(old(c.procs[..]), c.procs[..])
    ensures forall i: nat :: old(Live(c.procs[..], i)) && i == c.runningProc ==> c.PageTable() == old(c.TableOfSlot(i))
    ensures c.tlb[..] == TlbAfter(old(c.tlb[..]), c.PteOf(va), va, access)
    ensures var pa := Answered(old(c.tlb[..]), c.PteOf(va), va, access);
            r == if pa < 0 then Panics else Returns(SChar(c.mem[pa]))
  {
    hide Machine.Valid, Marked, Agree, Pages, TableAt, InTlb, Frame, Answered, TlbAfter, SChar;
    var d := c.Dispatcher(name);
    r := c.MemAccess(va, access);
  }

  /** The same names in the same slots. */
  ghost predicate SameNames(ps: seq<Proc>, qs: seq<Proc>) {
    |qs| == |ps| && forall i :: 0 <= i < |ps| ==> qs[i].name == ps[i].name
  }

  lemma NamedStill(ps: seq<Proc>, qs: seq<Proc>, i: nat, j: nat, name: string)
    requires SameNames(ps, qs) && Named(ps, i, name)
    ensures Named(qs, i, name) && (Named(qs, j, name) ==> j == i)
  {
    assert forall k :: 0 <= k < |ps| ==> qs[k].name == ps[k].name;
  }

  /** main as far as its first read in each process (lines 446-504): both reads give the byte of the
      first process, whatever was loaded for the second. */
  method MainReads(first: seq<byte>, second: seq<byte>) returns (x: Answer, y: Answer)
    requires |first| == |second| == FRAME
    ensures x == y == Returns(SChar(first[3]))
  {
    hide Machine.Valid, Marked, Agree, Pages, TableAt, InTlb, Frame, Answered, TlbAfter, SChar, Named, SameNames;
    var c := new Machine();
    var _, _, _, _ := MainTranslations(c);
    MainLoads(c, first, second);
    LoadedByte(c, first, second);
    ghost var ps, e, tlb := c.procs[..], c.TableOfSlot(1)[3], c.tlb[..];
    ReadAndCached(tlb, e, 0x303);
    x := DispatchAndRead(c, "Gusty", 0x303, 3);
    NamedStill(ps, ps, 1, c.runningProc, "Gusty");
    NamedStill(ps, c.procs[..], 2, 2, "Coletta");
    y := DispatchAndRead(c, "Coletta", 0x303, 3);
  }

  lemma LoadedByte(c: Machine, first: seq<byte>, second: seq<byte>)
    requires c.Valid() && Live(c.procs[..], 1) && c.TableOfSlot(1)[3] == Pte(2, 1, 1, 3) && |first| == FRAME
    requires c.AllPages() == map[(1, 3) := Content(first, 3, 1), (2, 3) := Content(second, 3, 1)]
    ensures c.mem[2 * FRAME + 3] == first[3]
  {
    PageByte(c.mem[..], c.procs[..], 1, 3);
    assert c.AllPages()[(1, 3)].bytes == first == Frame(c.mem[..], 2);
    assert Frame(c.mem[..], 2)[3] == c.mem[2 * FRAME + 3];
  }

  /** A granted page that was not cached is answered, and answered again whatever the table in use
      says then. */
  lemma ReadAndCached(tlb: seq<Tlbe>, e: Pte, va: int)
    requires |tlb| == TLB_SIZE && !InTlb(tlb, 3) && e == Pte(2, 1, 1, 3) && va == 0x303
    ensures Vpn(va) == 3 && Answered(tlb, e, va, 3) == 2 * FRAME + 3
    ensures forall f: Pte :: Answered(TlbAfter(tlb, e, va, 3), f, va, 3) == 2 * FRAME + 3
  {
    FilledHits(tlb, 3, 2);
  }
}
