/** memorylab/paging.c: the frame allocator, page tables written into the memory they map,
    and the TLB. */
module Paging {
  import opened PagingModel

  /** A call's value, or panic, after which nothing runs. */
  datatype Answer = Returns(value: int) | Panics

  class Machine {
    const mem: array<byte>
    const pagebitmap: array<bv32>
    const procs: array<Proc>
    const tlb: array<Tlbe>
    /** Where the page table in use is. */
    var ptbr: Register
    var runningProc: nat
    var statusreg: int
    /** What each marked frame is used for. */
    ghost var uses: map<byte, Use>

    /** Four different arrays. */
    ghost predicate Separate() {
      var m: object, b: object, p: object, t: object := mem, pagebitmap, procs, tlb;
      m != b && m != p && m != t && b != p && b != t && p != t
    }

    ghost predicate Valid()
      reads this, mem, pagebitmap, procs, tlb
      ensures Valid() ==> mem.Length == PAGES * FRAME && pagebitmap.Length == 8 && tlb.Length == TLB_SIZE
      ensures Valid() ==> procs.Length == MAX_PROCS && runningProc < MAX_PROCS && Separate()
      ensures Valid() && ptbr.InMem? ==> Live(procs[..], runningProc)
    {
      && Separate() && mem.Length == PAGES * FRAME && pagebitmap.Length == 8 && tlb.Length == TLB_SIZE
      && procs.Length == MAX_PROCS && runningProc < MAX_PROCS
      && (runningProc == 0 || Live(procs[..], runningProc))
      && (ptbr.InMem? ==> runningProc != 0 && ptbr == procs[runningProc].ptbr)
      && Isolated(mem[..], pagebitmap[..], procs[..], uses)
    }

    /** The pages of all processes. */
    ghost function AllPages(): map<(nat, nat), Content>
      requires Valid()
      reads this, mem, pagebitmap, procs, tlb
    {
      Pages(mem[..], procs[..])
    }

    /** The page table of the process in slot i. */
    ghost function TableOfSlot(i: nat): Table
      requires Valid() && Live(procs[..], i)
      reads this, mem, pagebitmap, procs, tlb
    {
      TableAt(mem[..], procs[i].tablePfn)
    }

    /** The page table in use. */
    ghost function PageTable(): Table
      requires Valid() && ptbr != Null
      reads this, mem, pagebitmap, procs, tlb
    {
      if ptbr.Outside? then ptbr.table else TableOfSlot(runningProc)
    }

    ghost predicate TlbAgrees()
      requires Valid() && ptbr != Null
      reads this, mem, pagebitmap, procs, tlb
    {
      Agree(tlb[..], PageTable())
    }

    constructor ()
      ensures Valid() && AllPages() == map[] && ptbr == Null && Empty(tlb[..])
      ensures forall f: byte :: !Marked(pagebitmap[..], f)
      ensures forall i :: 0 <= i < MAX_PROCS ==> procs[i] == Proc("", UNUSED, 0, Null)
      ensures fresh(mem) && fresh(pagebitmap) && fresh(procs) && fresh(tlb)
    {
      mem := new byte[PAGES * FRAME](_ => 0);
      pagebitmap := new bv32[8](_ => 0);
      procs := new Proc[MAX_PROCS](_ => Proc("", UNUSED, 0, Null));
      tlb := new Tlbe[TLB_SIZE](_ => Tlbe(false, 0, 0));
      ptbr, runningProc, statusreg := Null, 0, 0;
      uses := map[];
      new;
      NothingMarked(pagebitmap[..]);
    }

    /** Takes the first free frame and zeroes it; panics when there is none. */
    method PageAlloc() returns (r: Answer)
      requires mem.Length == PAGES * FRAME && pagebitmap.Length == 8
      modifies mem, pagebitmap
      ensures r == Panics <==> forall f: byte :: Marked(old(pagebitmap[..]), f)
      ensures r == Panics ==> mem[..] == old(mem[..]) && pagebitmap[..] == old(pagebitmap[..])
      ensures r.Returns? ==>
                && 0 <= r.value < PAGES && FirstFree(old(pagebitmap[..]), r.value)
                && MarkedAlso(old(pagebitmap[..]), pagebitmap[..], r.value)
                && SameOutside(old(mem[..]), mem[..], r.value)
                && Frame(mem[..], r.value) == seq(FRAME, _ => 0)
    {
      var pi: int := 0;
      while pi < PAGES
        invariant 0 <= pi <= PAGES
        invariant mem[..] == old(mem[..]) && pagebitmap[..] == old(pagebitmap[..])
        invariant forall f: byte :: f < pi ==> Marked(old(pagebitmap[..]), f)
      {
        var m := Mask(pi % 32);
        if !Test(pagebitmap[pi / 32], m) {
          assert !Marked(old(pagebitmap[..]), pi);
          MarkFrame(pi);
          ZeroFrame(pi);
          return Returns(pi);
        }
        assert Marked(old(pagebitmap[..]), pi);
        pi := pi + 1;
      }
      r := Panics;
    }

    method MarkFrame(f: byte)
      requires pagebitmap.Length == 8
      modifies pagebitmap
      ensures MarkedAlso(old(pagebitmap[..]), pagebitmap[..], f)
    {
      hide Mask, Or, Test, Apart;
      ghost var was, m := pagebitmap[..], Mask(f % 32);
      pagebitmap[f / 32] := Or(pagebitmap[f / 32], Mask(f % 32));
      ghost var now := was[f / 32 := Or(was[f / 32], m)];
      assert pagebitmap[..] == now;
      forall g: byte ensures Marked(now, g) <==> g == f || Marked(was, g) {
        MasksApart(f % 32, g % 32);
        if f % 32 == g % 32 { SetHere(was[f / 32], m); } else { SetElsewhere(was[f / 32], m, Mask(g % 32)); }
      }
    }

    method ZeroFrame(f: byte)
      requires mem.Length == PAGES * FRAME
      modifies mem
      ensures SameOutside(old(mem[..]), mem[..], f) && Frame(mem[..], f) == seq(FRAME, _ => 0)
    {
      var i := 0;
      while i < FRAME
        invariant 0 <= i <= FRAME
        invariant SameOutside(old(mem[..]), mem[..], f)
        invariant forall a :: f * FRAME <= a < f * FRAME + i ==> mem[a] == 0
      {
        mem[f * FRAME + i] := 0;
        i := i + 1;
      }
    }

    /** Unmarks a frame; panics when it is free already. */
    method PageFree(f: byte) returns (r: Answer)
      requires pagebitmap.Length == 8
      modifies pagebitmap
      ensures r == Panics <==> !Marked(old(pagebitmap[..]), f)
      ensures r == Panics ==> pagebitmap[..] == old(pagebitmap[..])
      ensures r != Panics ==> MarkedAlso(pagebitmap[..], old(pagebitmap[..]), f) && !Marked(pagebitmap[..], f)
    {
      hide Mask, AndNot, Test, Apart;
      var m := Mask(f % 32);
      if !Test(pagebitmap[f / 32], m) { return Panics; }
      ghost var was := pagebitmap[..];
      pagebitmap[f / 32] := AndNot(pagebitmap[f / 32], m);
      ghost var now := was[f / 32 := AndNot(was[f / 32], m)];
      assert pagebitmap[..] == now;
      forall g: byte ensures Marked(now, g) <==> g != f && Marked(was, g) {
        MasksApart(f % 32, g % 32);
        if f % 32 == g % 32 { ClearedHere(was[f / 32], m); } else { ClearedElsewhere(was[f / 32], m, Mask(g % 32)); }
      }
      r := Returns(0);
    }

    /** The first slot from 1 on that is unused gets the first free frame, zeroed, as its table;
        no page changes. Panics when there is such a slot and no such frame. */
    method AllocateProc(name: string) returns (r: Answer)
      requires Valid()
      modifies this`uses, mem, pagebitmap, procs
      ensures r == Returns(-1) <==> forall i: nat :: 1 <= i < MAX_PROCS ==> Live(old(procs[..]), i)
      ensures r == Panics <==>
                && !(forall i: nat :: 1 <= i < MAX_PROCS ==> Live(old(procs[..]), i))
                && forall f: byte :: Marked(old(pagebitmap[..]), f)
      ensures r.Returns? ==> Valid() && AllPages() == old(AllPages())
      ensures r.Returns? && ptbr != Null ==> PageTable() == old(PageTable())
      ensures r == Returns(-1) ==>
                procs[..] == old(procs[..]) && mem[..] == old(mem[..]) && pagebitmap[..] == old(pagebitmap[..])
      ensures r.Returns? && r.value != -1 ==>
                && 1 <= r.value < MAX_PROCS && !Live(old(procs[..]), r.value) && Live(procs[..], r.value)
                && (forall i: nat :: 1 <= i < r.value ==> Live(old(procs[..]), i))
                && procs[r.value].name == name && procs[r.value].state == READY
                && (forall i :: 0 <= i < MAX_PROCS && i != r.value ==> procs[i] == old(procs[i]))
                && FirstFree(old(pagebitmap[..]), procs[r.value].tablePfn)
                && MarkedAlso(old(pagebitmap[..]), pagebitmap[..], procs[r.value].tablePfn)
                && Frame(mem[..], procs[r.value].tablePfn) == seq(FRAME, _ => 0)
    {
      hide Entry, Frame, Pages, SameOutside, Marked, MarkedAlso, FirstFree, TableAt;
      ghost var m, b, ps, o := mem[..], pagebitmap[..], procs[..], uses;
      var i := 1;
      while i < MAX_PROCS
        invariant 1 <= i <= MAX_PROCS
        invariant forall j: nat :: 1 <= j < i ==> Live(ps, j)
        invariant mem[..] == m && pagebitmap[..] == b && procs[..] == ps && uses == o
      {
        assert SlotOk(ps, o, i);
        if procs[i].state == UNUSED {
          assert !Live(ps, i);
          var pfn := PageAlloc();
          if pfn == Panics { return Panics; }
          ghost var n, c := mem[..], pagebitmap[..];
          procs[i] := Proc(name, READY, pfn.value, InMem(pfn.value * FRAME));
          uses := o[pfn.value := TableOf(i)];
          assert mem[..] == n && pagebitmap[..] == c && procs[..] == ps[i := procs[i]];
          NewTableIsolated(m, n, b, c, ps, procs[..], o, i, pfn.value);
          NewFrameUnseen(m, n, b, ps, o, pfn.value);
          assert runningProc != 0 ==> Live(ps, runningProc) && runningProc != i;
          return Returns(i);
        }
        i := i + 1;
      }
      r := Returns(-1);
    }

    /** Writes page table entry v of the table at address table. */
    method WriteEntry(table: int, tf: byte, v: nat, e: Pte)
      requires mem.Length == PAGES * FRAME && v < ENTRIES && table == tf * FRAME
      modifies mem
      ensures EntrySet(old(mem[..]), mem[..], tf, v, e)
    {
      mem[table + 4 * v] := e.pfn;
      mem[table + 4 * v + 1] := e.valid;
      mem[table + 4 * v + 2] := e.present;
      mem[table + 4 * v + 3] := e.protect;
    }

    /** memcpy of a whole frame */
    method CopyFrame(f: byte, bytes: seq<byte>)
      requires mem.Length == PAGES * FRAME && |bytes| == FRAME
      modifies mem
      ensures SameOutside(old(mem[..]), mem[..], f) && Frame(mem[..], f) == bytes
    {
      var i := 0;
      while i < FRAME
        invariant 0 <= i <= FRAME
        invariant SameOutside(old(mem[..]), mem[..], f)
        invariant forall a :: 0 <= a < i ==> mem[f * FRAME + a] == bytes[a]
      {
        mem[f * FRAME + i] := bytes[i];
        i := i + 1;
      }
    }

    /** The first slot of that name gets the page; every other page keeps its bytes. */
    method LoadProcPage(name: string, vpn: nat, bytes: seq<byte>, access: int) returns (r: Answer)
      requires Valid() && name != "" && vpn < ENTRIES && |bytes| == FRAME
      modifies this`uses, mem, pagebitmap
      ensures r == Returns(-1) <==> forall i :: 0 <= i < MAX_PROCS ==> procs[i].name != name
      ensures r == Panics <==>
                && !(forall i :: 0 <= i < MAX_PROCS ==> procs[i].name != name)
                && forall f: byte :: Marked(old(pagebitmap[..]), f)
      ensures r.Returns? ==> Valid()
      ensures r == Returns(-1) ==>
                uses == old(uses) && mem[..] == old(mem[..]) && pagebitmap[..] == old(pagebitmap[..])
      ensures r.Returns? && r.value != -1 ==> r.value == 0
      ensures r == Returns(0) ==>
                forall i: nat :: Named(procs[..], i, name) ==> Live(procs[..], i) && Loaded(i, vpn, bytes, access % 256)
    {
      var i := 0;
      while i < MAX_PROCS
        invariant 0 <= i <= MAX_PROCS
        invariant forall j :: 0 <= j < i ==> procs[j].name != name
      {
        if procs[i].name == name {
          NamedSlot(mem[..], pagebitmap[..], procs[..], uses, i, name);
          r := LoadIntoSlot(i, vpn, bytes, access % 256);
          return;
        }
        i := i + 1;
      }
      r := Returns(-1);
    }

    /** Page vpn of slot i has just been put into the first free frame, and nothing else was
        done: one page changes, one entry of one table, and the TLB is as right as before unless
        that page is cached for the table in use. */
    twostate predicate Loaded(i: nat, vpn: nat, bytes: seq<byte>, access: byte)
      requires old(Valid()) && Valid() && old(Live(procs[..], i)) && Live(procs[..], i) && vpn < ENTRIES
      reads this, mem, pagebitmap, procs, tlb
    {
      var f := TableOfSlot(i)[vpn].pfn;
      && AllPages() == old(AllPages())[(i, vpn) := Content(bytes, access, 1)]
      && FirstFree(old(pagebitmap[..]), f) && MarkedAlso(old(pagebitmap[..]), pagebitmap[..], f)
      && TableOfSlot(i) == old(TableOfSlot(i))[vpn := Pte(f, 1, 1, access)]
      && BytesAt(mem[..], procs[i].tablePfn * FRAME + 4 * vpn, [f, 1, 1, access])
      && (forall j: nat :: old(Live(procs[..], j)) && Live(procs[..], j) && j != i ==>
            TableOfSlot(j) == old(TableOfSlot(j)))
      && (old(ptbr != Null && TlbAgrees()) && ptbr != Null ==>
            (TlbAgrees() <==> !(ptbr.InMem? && i == runningProc && InTlb(tlb[..], vpn))))
    }

    method LoadIntoSlot(i: nat, vpn: nat, bytes: seq<byte>, access: byte) returns (r: Answer)
      requires Valid() && Live(procs[..], i) && vpn < ENTRIES && |bytes| == FRAME
      modifies this`uses, mem, pagebitmap
      ensures r == Panics || r == Returns(0)
      ensures r == Panics <==> forall f: byte :: Marked(old(pagebitmap[..]), f)
      ensures r.Returns? ==> Valid() && Loaded(i, vpn, bytes, access)
    {
      hide Entry, Frame, Pages, SameOutside, PageStored, Marked, InTlb, Agree, TableAt;
      ghost var m, b, ps, o := mem[..], pagebitmap[..], procs[..], uses;
      UnmarkedFrame(m, b, ps, o, i);
      ghost var n, f;
      r, n, f := StorePage(procs[i].ptbr.address, procs[i].tablePfn, vpn, bytes, access);
      if r == Panics { return; }
      ghost var c, k := pagebitmap[..], mem[..];
      uses := o[f := PageOf(i, vpn)];
      assert procs[..] == ps;
      NewPageIsolated(m, n, k, b, c, ps, o, i, vpn, f, access);
      NewPageOnly(m, n, k, b, ps, o, i, vpn, f, access);
      TablesAfterLoad(m, n, k, b, ps, o, i, vpn, f, access);
      EntryBytes(k, ps[i].tablePfn, vpn);
      if old(ptbr != Null && TlbAgrees()) && ptbr.InMem? && i == runningProc {
        LoadAgrees(tlb[..], old(PageTable()), vpn, f, access);
      }
    }

    /** The first free frame gets the page, and entry vpn of the table points to it. */
    method StorePage(table: int, tf: byte, vpn: nat, bytes: seq<byte>, access: byte)
        returns (r: Answer, ghost n: seq<byte>, ghost f: byte)
      requires mem.Length == PAGES * FRAME && pagebitmap.Length == 8 && vpn < ENTRIES && |bytes| == FRAME
      requires table == tf * FRAME && Marked(pagebitmap[..], tf)
      modifies mem, pagebitmap
      ensures r == Panics || r == Returns(0)
      ensures r == Panics <==> forall g: byte :: Marked(old(pagebitmap[..]), g)
      ensures r.Returns? ==>
                && FirstFree(old(pagebitmap[..]), f) && MarkedAlso(old(pagebitmap[..]), pagebitmap[..], f)
                && PageStored(old(mem[..]), n, mem[..], tf, vpn, f, access)
                && Frame(mem[..], f) == bytes && Frame(n, f) == bytes
    {
      hide Entry, Frame, SameOutside, EntrySet, PageStored, Marked;
      ghost var m := mem[..];
      n, f := m, 0;
      var pfn := PageAlloc();
      if pfn == Panics { return Panics, n, f; }
      f := pfn.value;
      ghost var z := mem[..];
      WriteEntry(table, tf, vpn, Pte(pfn.value, 1, 1, access));
      ghost var w := mem[..];
      CopyFrame(pfn.value, bytes);
      n := EntryThenFrame(m, z, w, mem[..], tf, vpn, f, access);
      r := Returns(0);
    }

    /** Loads a table that is not in mem. */
    method UseTable(table: Table)
      requires Valid()
      modifies this`ptbr
      ensures Valid() && ptbr == Outside(table) && PageTable() == table && AllPages() == old(AllPages())
    {
      ptbr := Outside(table);
    }

    /** Makes the first slot of that name the running one. The TLB stays as it was, and so is right
        afterwards only if it is empty or the process ran already. The empty name finds slot 0. */
    method Dispatcher(name: string) returns (r: int)
      requires Valid()
      modifies this`ptbr, this`runningProc, this`statusreg, procs
      ensures Valid() && AllPages() == old(AllPages())
      ensures r == -1 <==> forall i :: 0 <= i < MAX_PROCS ==> old(procs[i]).name != name
      ensures r == -1 ==> procs[..] == old(procs[..]) && ptbr == old(ptbr) && runningProc == old(runningProc)
      ensures r != -1 ==>
                && r == 0 && ptbr == procs[runningProc].ptbr && Named(old(procs[..]), runningProc, name)
                && procs[..] == Switched(old(procs[..]), old(runningProc), runningProc)
                && procs[runningProc].name == name && procs[runningProc].state == RUNNING
      ensures r != -1 ==> if name == "" then runningProc == 0 && ptbr == Null else runningProc != 0 && ptbr.InMem?
      ensures r != -1 ==> (old(runningProc) != runningProc ==> procs[old(runningProc)].state == READY)
      ensures r != -1 ==> forall i :: 0 <= i < MAX_PROCS ==>
                procs[i].(state := UNUSED) == old(procs[i]).(state := UNUSED)
                && (i != runningProc && i != old(runningProc) ==> procs[i] == old(procs[i]))
      ensures r != -1 ==> statusreg == if name == "kernelproc" then 1 else 0
      ensures forall i: nat :: Live(procs[..], i) <==> old(Live(procs[..], i))
      ensures forall i: nat :: Live(procs[..], i) ==> TableOfSlot(i) == old(TableOfSlot(i))
      ensures r != -1 && name != "" && old(ptbr.InMem? && TlbAgrees()) ==>
                (TlbAgrees() <==> runningProc == old(runningProc) || Empty(tlb[..]))
    {
      hide Pages, TableAt, Agree, Isolated;
      ghost var ps := procs[..];
      var i := 0;
      while i < MAX_PROCS
        invariant 0 <= i <= MAX_PROCS && procs[..] == ps
        invariant forall j :: 0 <= j < i ==> ps[j].name != name
      {
        if procs[i].name == name {
          NamedSlot(mem[..], pagebitmap[..], ps, uses, i, name);
          SwitchKeeps(mem[..], pagebitmap[..], ps, uses, tlb[..], runningProc, i);
          procs[runningProc] := procs[runningProc].(state := READY);
          procs[i] := procs[i].(state := RUNNING);
          assert procs[..] == Switched(ps, runningProc, i);
          runningProc := i;
          ptbr := procs[i].ptbr;
          statusreg := if procs[i].name == "kernelproc" then 1 else 0;
          return 0;
        }
        i := i + 1;
      }
      r := -1;
    }

    method InvalidateTlb()
      requires tlb.Length == TLB_SIZE
      modifies tlb
      ensures forall i :: 0 <= i < TLB_SIZE ==> tlb[i] == old(tlb[i]).(valid := false)
      ensures old(Valid()) ==> Valid() && AllPages() == old(AllPages())
      ensures old(Valid()) && ptbr != Null ==> TlbAgrees()
    {
      var i := 0;
      while i < TLB_SIZE
        invariant 0 <= i <= TLB_SIZE
        invariant forall j :: 0 <= j < TLB_SIZE ==>
            tlb[j] == if j < i then old(tlb[j]).(valid := false) else old(tlb[j])
      {
        tlb[i] := tlb[i].(valid := false);
        i := i + 1;
      }
    }

    /** The entry in use for an address. */
    ghost function PteOf(va: int): Pte
      requires Valid() && ptbr != Null && 0 <= Vpn(va) < ENTRIES
      reads this, mem, pagebitmap, procs, tlb
    {
      PageTable()[Vpn(va)]
    }

    /** Entry v of the table in use, as the hardware reads it. */
    method ReadEntry(v: nat) returns (e: Pte)
      requires Valid() && ptbr != Null && v < ENTRIES
      ensures e == PageTable()[v]
    {
      hide Isolated, SlotOk;
      if ptbr.Outside? { return ptbr.table[v]; }
      RunningTable();
      var a := ptbr.address + 4 * v;
      e := Pte(mem[a], mem[a + 1], mem[a + 2], mem[a + 3]);
    }

    /** Puts the translation into every invalid entry, or evicts the first. */
    method FillTlb(vpn: schar, pfn: schar)
      requires tlb.Length == TLB_SIZE
      modifies tlb
      ensures tlb[..] == Filled(old(tlb[..]), vpn, pfn)
      ensures forall i :: 0 <= i < TLB_SIZE && !old(tlb[i]).valid ==> tlb[i] == Tlbe(true, vpn, pfn)
      ensures forall i :: 1 <= i < TLB_SIZE && old(tlb[i]).valid ==> tlb[i] == old(tlb[i])
      ensures old(tlb[0]).valid ==>
                if forall i :: 0 <= i < TLB_SIZE ==> old(tlb[i]).valid then tlb[0] == Tlbe(true, vpn, pfn)
                else tlb[0] == old(tlb[0])
    {
      var updated := false;
      var i := 0;
      while i < TLB_SIZE
        invariant 0 <= i <= TLB_SIZE
        invariant updated <==> exists j :: 0 <= j < i && !old(tlb[..])[j].valid
        invariant forall j :: 0 <= j < TLB_SIZE ==>
          tlb[j] == if j < i && !old(tlb[..])[j].valid then Tlbe(true, vpn, pfn) else old(tlb[..])[j]
      {
        if !tlb[i].valid {
          tlb[i] := Tlbe(true, vpn, pfn);
          updated := true;
        }
        i := i + 1;
      }
      if !updated {
        tlb[0] := Tlbe(true, vpn, pfn);
      }
    }

    lemma RunningTable()
      requires Valid() && ptbr.InMem?
      ensures ptbr.address == procs[runningProc].tablePfn * FRAME
    {
      assert SlotOk(procs[..], uses, runningProc);
    }

    method Va2pa(va: int, access: int) returns (pa: int)
      requires Valid() && ptbr != Null && 0 <= Vpn(va) < ENTRIES
      modifies tlb
      ensures Valid() && tlb[..] == TlbAfter(old(tlb[..]), PteOf(va), va, access)
      ensures pa == Answered(old(tlb[..]), PteOf(va), va, access)
      ensures !InTlb(old(tlb[..]), Vpn(va)) && va % 256 < 128 ==>
                && (pa == -1 <==> PteOf(va).valid == 0)
                && (pa == -3 <==> PteOf(va).valid != 0 && PteOf(va).present == 0)
                && (pa == -2 <==> PteOf(va).valid != 0 && PteOf(va).present != 0 && access != SChar(PteOf(va).protect))
      ensures tlb[..] != old(tlb[..]) ==>
                && !InTlb(old(tlb[..]), Vpn(va))
                && PteOf(va).valid != 0 && PteOf(va).present != 0 && access == SChar(PteOf(va).protect)
      ensures old(TlbAgrees()) ==> TlbAgrees()
    {
      hide SChar, Join, Filled, Agree, Isolated, Walk, TableAt;
      ghost var was, t := tlb[..], PageTable();
      var vpn, off := Vpn(va), Off(va);
      if Agree(was, t) { AgreeKept(was, t, va, access); }
      if !InTlb(was, vpn) { MissAnswers(was, t[vpn], va, access); }
      var i := 0;
      while i < TLB_SIZE
        invariant 0 <= i <= TLB_SIZE && tlb[..] == was
        invariant forall j :: 0 <= j < i ==> !(was[j].valid && was[j].vpn == vpn)
      {
        if tlb[i].valid && tlb[i].vpn == vpn {
          HitPfnIs(was, vpn, i);
          return Join(tlb[i].pfn, off);
        }
        i := i + 1;
      }
      assert !InTlb(was, vpn);
      pa := WalkTable(vpn, off, access);
    }

    /** Lines 232-263: the TLB has missed. */
    method WalkTable(vpn: schar, off: schar, access: int) returns (pa: int)
      requires Valid() && ptbr != Null && 0 <= vpn < ENTRIES
      modifies tlb
      ensures Valid() && PageTable() == old(PageTable()) && pa == Walk(PageTable()[vpn], off, access)
      ensures var e := PageTable()[vpn];
              tlb[..] == if Granted(e, access) then Filled(old(tlb[..]), vpn, SChar(e.pfn)) else old(tlb[..])
    {
      hide SChar, Join, Filled, Agree, Isolated, TableAt;
      var e := ReadEntry(vpn);
      if e.valid != 0 {
        if e.present == 0 { return -3; }
        if access != SChar(e.protect) { return -2; }
        var pfn := SChar(e.pfn);
        FillTlb(vpn, pfn);
        return Join(pfn, off);
      }
      pa := -1;
    }

    /** The byte at the translated address, or a panic when there is none. With a TLB that agrees
        with the table, the byte of the entry's frame, exactly when that entry is valid and
        present, allowed or cached, and frame and offset fit a plain char; for a dispatched
        process that is the byte last loaded at that address. */
    method MemAccess(va: int, access: int) returns (r: Answer)
      requires Valid() && ptbr != Null && 0 <= Vpn(va) < ENTRIES
      modifies tlb
      ensures Valid() && AllPages() == old(AllPages()) && (old(TlbAgrees()) ==> TlbAgrees())
      ensures tlb[..] == TlbAfter(old(tlb[..]), PteOf(va), va, access)
      ensures var pa := Answered(old(tlb[..]), PteOf(va), va, access);
              r == if pa < 0 then Panics else Returns(SChar(mem[pa]))
      ensures old(TlbAgrees()) ==>
                (r.Returns? <==>
                (InTlb(old(tlb[..]), Vpn(va)) || Granted(PteOf(va), access)) && PteOf(va).pfn < 128 && va % 256 < 128)
      ensures old(TlbAgrees()) && r.Returns? ==> r.value == SChar(Frame(mem[..], PteOf(va).pfn)[va % 256])
      ensures old(TlbAgrees()) && r.Returns? && ptbr.InMem? ==>
                && (runningProc, Vpn(va) as nat) in AllPages()
                && r.value == SChar(AllPages()[(runningProc, Vpn(va) as nat)].bytes[va % 256])
    {
      hide Isolated, Agree, Pages, InTlb, Answered, TlbAfter, Granted, TableAt, Frame, SChar, Vpn, Live;
      if Agree(tlb[..], PageTable()) {
        AddressedByte(tlb[..], PageTable(), mem[..], va, access);
        if ptbr.InMem? { PageByte(mem[..], procs[..], runningProc, Vpn(va)); }
      }
      var pa := Va2pa(va, access);
      if pa < 0 { return Panics; }
      var pfn, off := pa / 256, pa % 256;
      r := Returns(SChar(mem[pfn * FRAME + off]));
    }
  }

  lemma NothingMarked(b: seq<bv32>)
    requires |b| == 8 && forall i :: 0 <= i < 8 ==> b[i] == 0
    ensures forall f: byte :: !Marked(b, f)
  {
    hide Mask;
    forall f: byte ensures !Marked(b, f) {
      ZeroTests(Mask(f % 32));
    }
  }

  lemma ZeroTests(m: bv32)
    ensures !Test(0, m)
  {
  }

  /** Only names, tables and whether a slot is used matter to isolation. */
  lemma StateChanged(m: seq<byte>, b: seq<bv32>, ps: seq<Proc>, qs: seq<Proc>, o: map<byte, Use>, i: nat)
    requires Isolated(m, b, ps, o) && i < MAX_PROCS && (i == 0 || Live(ps, i))
    requires |qs| == MAX_PROCS && qs == ps[i := ps[i].(state := qs[i].state)] && qs[i].state != UNUSED
    ensures Isolated(m, b, qs, o) && Pages(m, qs) == Pages(m, ps)
  {
    forall j: nat | 1 <= j < MAX_PROCS ensures SlotOk(qs, o, j) {
      assert SlotOk(ps, o, j);
    }
    assert forall j: nat :: Live(qs, j) <==> Live(ps, j);
    forall j: nat, v: nat | Live(qs, j) && v < ENTRIES ensures EntryOk(m, qs, o, j, v) {
      assert EntryOk(m, ps, o, j, v);
    }
  }

  /** Only the empty name is found in slot 0, and it is found there. */
  lemma NamedSlot(m: seq<byte>, b: seq<bv32>, ps: seq<Proc>, o: map<byte, Use>, i: nat, name: string)
    requires Isolated(m, b, ps, o) && Named(ps, i, name)
    ensures if name == "" then i == 0 && ps[i].ptbr == Null else Live(ps, i) && ps[i].ptbr.InMem?
  {
    if i != 0 { assert SlotOk(ps, o, i); }
  }

  /** Slot i becomes ready and slot j runs. */
  function Switched(ps: seq<Proc>, i: nat, j: nat): (qs: seq<Proc>)
    requires i < |ps| && j < |ps|
    ensures |qs| == |ps|
  {
    var rs := ps[i := ps[i].(state := READY)];
    rs[j := rs[j].(state := RUNNING)]
  }

  lemma SwitchKeeps(m: seq<byte>, b: seq<bv32>, ps: seq<Proc>, o: map<byte, Use>, tlb: seq<Tlbe>, i: nat, j: nat)
    requires Isolated(m, b, ps, o) && i < MAX_PROCS && (i == 0 || Live(ps, i))
    requires j < MAX_PROCS && (j == 0 || Live(ps, j))
    ensures var qs := Switched(ps, i, j);
            && Isolated(m, b, qs, o) && Pages(m, qs) == Pages(m, ps)
            && forall k: nat :: k < MAX_PROCS ==> qs[k] == ps[k].(state := qs[k].state)
    ensures i != 0 && j != 0 && Agree(tlb, TableAt(m, ps[i].tablePfn)) ==>
              (Agree(tlb, TableAt(m, ps[j].tablePfn)) <==> i == j || Empty(tlb))
  {
    hide Pages, TableAt, Agree;
    var rs := ps[i := ps[i].(state := READY)];
    StateChanged(m, b, ps, rs, o, i);
    StateChanged(m, b, rs, Switched(ps, i, j), o, j);
    if i != 0 && j != 0 && Agree(tlb, TableAt(m, ps[i].tablePfn)) { SwitchAgrees(tlb, m, b, ps, o, i, j); }
  }

  /** The table of a process is in a marked frame, and none of its entries points to an unmarked one. */
  lemma UnmarkedFrame(m: seq<byte>, b: seq<bv32>, ps: seq<Proc>, o: map<byte, Use>, i: nat)
    requires Isolated(m, b, ps, o) && Live(ps, i)
    ensures Marked(b, ps[i].tablePfn) && ps[i].ptbr == InMem(ps[i].tablePfn * FRAME)
    ensures var t := TableAt(m, ps[i].tablePfn);
            forall v: nat :: v < ENTRIES && t[v].valid != 0 ==> Marked(b, t[v].pfn)
  {
    hide Marked, Entry;
    assert SlotOk(ps, o, i);
    var t := TableAt(m, ps[i].tablePfn);
    forall v: nat | v < ENTRIES && t[v].valid != 0 ensures Marked(b, t[v].pfn) {
      assert EntryOk(m, ps, o, i, v);
    }
  }

  /** With an agreeing TLB the address answered is the entry's frame and the offset. */
  lemma AddressedByte(tlb: seq<Tlbe>, t: Table, m: seq<byte>, va: int, access: int)
    requires |m| == PAGES * FRAME && 0 <= Vpn(va) < ENTRIES && Agree(tlb, t)
    ensures var e, pa := t[Vpn(va)], Answered(tlb, t[Vpn(va)], va, access);
            && (pa >= 0 <==> (InTlb(tlb, Vpn(va)) || Granted(e, access)) && e.pfn < 128 && va % 256 < 128)
            && (pa >= 0 ==> e.valid != 0 && m[pa] == Frame(m, e.pfn)[va % 256])
  {
    hide Answered, InTlb, Granted;
    TranslationIs(tlb, t, va, access);
  }

  /** A valid entry's frame holds the page. */
  lemma PageByte(m: seq<byte>, ps: seq<Proc>, i: nat, v: nat)
    requires |m| == PAGES * FRAME && |ps| == MAX_PROCS && Live(ps, i) && v < ENTRIES
    ensures var e := TableAt(m, ps[i].tablePfn)[v];
            e.valid != 0 ==> (i, v) in Pages(m, ps) && Pages(m, ps)[(i, v)].bytes == Frame(m, e.pfn)
  {
  }
}
