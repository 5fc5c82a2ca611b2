/** Start-up: the three memory components initialized one after the other, each from what the one before left. */
module Boot {
  import opened Word
  import opened PageModel
  import opened AddressSpace
  import opened AccessRights
  import Blocks
  import Faults = FaultModel
  import Frames = FrameModel
  import VM = VirtualMemory
  import Model = AllocatorModel
  import P = Paging
  import PhysicalMemory

  /** The end of the page that holds the allocator's list headers; the first write to that page faults. */
  const LISTS_END := VM.LISTS + PAGE

  /** What the boot loader and the boot code left: a memory map, the boot directory, memory for both. */
  ghost predicate Loaded(memUpper: u32, mmap: seq<u32>, m: P.Machine, kernelEnd: u32)
    reads m, m.mem
  {
    && 1024 <= Frames.FramesFor(memUpper) && 1024 <= FrameCount(m.mem[..]) && m.mem.Length <= 0x4000_0000
    && Frames.Bytes(mmap) && Frames.Tiled(mmap, 0)
    && Frames.MapFits(Frames.Entries(mmap, 0), Frames.FramesFor(memUpper))
    && (forall f: nat :: StartsFree(mmap, f) ==> f < FrameCount(m.mem[..]))
    && m.pse && Faults.BootDirectory(m.mem[..], m.cr3 / PAGE)
    && KERNEL_BASE + 0x10_0000 <= kernelEnd && KERNEL_BASE + m.cr3 < kernelEnd
    && P.PageAfter(BitmapAt(kernelEnd) + Frames.FramesFor(memUpper) / 8) + 2 * PAGE <= KERNEL_BASE + SPAN
  }

  /** The page behind the kernel, where the frame bitmap goes. */
  function BitmapAt(kernelEnd: u32): int { kernelEnd - kernelEnd % PAGE + PAGE }

  lemma BitmapIsBehindKernel(kernelEnd: u32)
    ensures BitmapAt(kernelEnd) % PAGE == 0 && kernelEnd < BitmapAt(kernelEnd) <= kernelEnd + PAGE
  {
  }

  /** The frames free after start-up: those of type-1 entries that lie above the first 4 MB. */
  predicate StartsFree(mmap: seq<u32>, f: nat)
    requires Frames.Bytes(mmap) && Frames.Tiled(mmap, 0)
  {
    Frames.Freed(Frames.Entries(mmap, 0), f) && f >= 1024
  }

  /** The translation in force at boot: the kernel's 4 MB are physical memory from 0 on. */
  function KernelOnly(v: u32): Option<nat> {
    if DirIndex(v) == KERNEL then Some(v % SPAN) else None
  }

  /** `pmm_initialize`, with the directory in force. */
  method StartFrames(memUpper: u32, mmap: seq<u32>, m: P.Machine, kernelEnd: u32) returns (pmm: PhysicalMemory.Pmm)
    requires Loaded(memUpper, mmap, m, kernelEnd)
    ensures fresh(pmm) && fresh(pmm.frames.addr) && 8 * pmm.frames.addr.Length == Frames.FramesFor(memUpper)
    ensures forall f: nat :: f in pmm.Free() <==> StartsFree(mmap, f)
    ensures forall f :: f in pmm.Free() ==> 1024 <= f < FrameCount(m.mem[..])
    ensures Frames.PlainMap(Frames.Entries(mmap, 0)) ==>
              forall f: nat :: f in pmm.Free() <==> Frames.Provided(Frames.Entries(mmap, 0), f) && f >= 1024
  {
    var bootDir := WordsOf(m.mem[..], m.cr3 / PAGE);
    FirstFramesReserved(m.mem[..], m.cr3 / PAGE);
    pmm := new PhysicalMemory.Pmm.Initialize(memUpper, mmap, bootDir);
    assert forall f: nat :: f in pmm.Free() ==> StartsFree(mmap, f);
  }

  /** `pmm_initialize`, then `paging_initialize`: no frame is shared, no translation outside the recursive window
      changes, and the free frames are exactly those the memory map gives above the first 4 MB. */
  method StartPaging(memUpper: u32, mmap: seq<u32>, m: P.Machine, kernelEnd: u32) returns (paging: P.Paging)
    requires Loaded(memUpper, mmap, m, kernelEnd)
    modifies m, m.mem
    ensures paging.machine == m && paging.Valid() && Faults.Isolated(paging.View(), paging.Dir())
    ensures forall f: nat :: f in paging.pmm.Free() <==> StartsFree(mmap, f)
    ensures Frames.PlainMap(Frames.Entries(mmap, 0)) ==>
              forall f: nat :: f in paging.pmm.Free() <==> Frames.Provided(Frames.Entries(mmap, 0), f) && f >= 1024
    ensures forall v: u32 :: DirIndex(v) != SELF ==> m.Phys(v) == old(m.Phys(v)) == KernelOnly(v)
    ensures SameBut(old(m.mem[..]), m.mem[..], paging.Dir(), paging.Dir() + 1)
    ensures KernelAccess(m.mem[..], paging.Dir())
    ensures fresh(paging) && fresh(paging.pmm.frames.addr) && fresh(paging.tablesVirt) && fresh(paging.tablesPhys)
  {
    var pmm := StartFrames(memUpper, mmap, m, kernelEnd);
    ghost var m0, b := m.mem[..], m.cr3 / PAGE;
    paging := new P.Paging.Initialize(m, pmm, BitmapAt(kernelEnd));
    SwitchedTranslation(m0, b, m.mem[..], paging.Dir());
  }

  lemma FirstFramesReserved(m: Mem, b: nat)
    requires Faults.BootDirectory(m, b)
    ensures forall f: nat :: Frames.InBootPage(WordsOf(m, b), 1024, f) <==> f < 1024
  {
    forall f: nat
      ensures Frames.InBootPage(WordsOf(m, b), 1024, f) <==> f < 1024
    {
      Faults.BootPageIsReserved(m, b, WordsOf(m, b), f);
    }
  }

  lemma SwitchedTranslation(m: Mem, b: nat, m': Mem, d: nat)
    requires Faults.BootDirectory(m, b) && Faults.Initialized(m', d, d + 1)
    ensures KernelAccess(m', d)
    ensures forall v: u32 :: DirIndex(v) != SELF ==> Walk(m', d, v) == KernelOnly(v)
  {
    SwitchStartsAccess(m, b, m', d, d + 1);
    forall v: u32 | DirIndex(v) != SELF
      ensures Walk(m', d, v) == KernelOnly(v)
    {
      Faults.SwitchKeepsTranslation(m, b, m', d, d + 1, v);
    }
  }

  /** At least two frames are free after start-up: one for the first page touched, one for its table. */
  ghost predicate TwoStartFree(mmap: seq<u32>)
    requires Frames.Bytes(mmap) && Frames.Tiled(mmap, 0)
  {
    exists f: nat, g: nat :: f < g && StartsFree(mmap, f) && StartsFree(mmap, g)
  }

  /** The unmapped addresses below the window: all but the kernel's 4 MB and the page behind them. */
  ghost predicate BootTables(t: VM.Tables)
    requires t.Valid()
  {
    forall a :: 0 <= a < WINDOW ==> (t.Unmapped(a) <==> a < KERNEL_BASE || LISTS_END <= a)
  }

  /** The canonical list of those below `pos`. */
  function BootList(pos: nat): seq<Blocks.Block> {
    if pos == 0 then []
    else if pos <= KERNEL_BASE then [Blocks.Block(0, pos)]
    else if pos <= LISTS_END then [Blocks.Block(0, KERNEL_BASE)]
    else [Blocks.Block(0, KERNEL_BASE), Blocks.Block(LISTS_END, pos - LISTS_END)]
  }

  lemma BootListCollects(t: VM.Tables, pos: nat)
    requires t.Valid() && BootTables(t) && pos <= WINDOW
    ensures VM.Collected(BootList(pos), t, pos)
  {
    var l := BootList(pos);
    forall a
      ensures Blocks.Covers(l, a) <==> a < pos && t.Unmapped(a)
    {
      if 0 <= a < pos && a < KERNEL_BASE {
        assert l[0].Has(a);
      } else if LISTS_END <= a < pos {
        assert l[1].Has(a);
      }
    }
  }

  lemma BootListIsCollected(t: VM.Tables, s: seq<Blocks.Block>, pos: nat)
    requires t.Valid() && BootTables(t) && pos <= WINDOW && VM.Collected(s, t, pos)
    ensures s == BootList(pos)
  {
    BootListCollects(t, pos);
    VM.CollectedIsUnique(s, BootList(pos), t, pos);
  }

  /** Three nodes are created: for two blocks and, just before it is coalesced, for one more. */
  lemma ThreeNodes(t: VM.Tables, count: nat)
    requires t.Valid() && BootTables(t) && VM.MostCollected(count, t, 1023, 0)
    ensures count == 3
  {
    LastTurnAdds(t);
    if s: seq<Blocks.Block>, i: nat, j: nat :| VM.AddsTo(s, t, i, j) && count == |s| + 1 {
      BootListIsCollected(t, s, i * SPAN + j * PAGE);
    }
  }

  lemma LastTurnAdds(t: VM.Tables)
    requires t.Valid() && BootTables(t)
    ensures VM.AddsTo(BootList(1022 * SPAN), t, 1022, 0) && VM.Before(1022, 0, 1023, 0)
    ensures |BootList(1022 * SPAN)| == 2
  {
    BootListCollects(t, 1022 * SPAN);
    assert t.Unmapped(1022 * SPAN);
  }

  /** The first write to the list headers can be served. */
  lemma FirstFaultIsServable(st: Faults.State, d: nat, mmap: seq<u32>)
    requires Frames.Bytes(mmap) && Frames.Tiled(mmap, 0) && TwoStartFree(mmap)
    requires forall f: nat :: f in st.free <==> StartsFree(mmap, f)
    requires forall v: u32 :: DirIndex(v) != SELF ==> Walk(st.mem, d, v) == KernelOnly(v)
    ensures Faults.Servable(st, d, VM.LISTS)
  {
    var f: nat, g: nat :| f < g && StartsFree(mmap, f) && StartsFree(mmap, g);
    var p := Frames.Least(st.free);
    assert (if f == p then g else f) in st.free - {p};
  }

  /** Outside the recursive window the first page of the lists is mapped, and else only the kernel's 4 MB. */
  ghost predicate ListsMapped(m: Mem, d: nat) {
    && Walk(m, d, VM.LISTS).Some?
    && forall v: u32 :: DirIndex(v) != SELF && PageOf(v) != PageOf(VM.LISTS) ==> Walk(m, d, v) == KernelOnly(v)
  }

  /** The kernel can read and write that page and its own, and nobody else any. */
  ghost predicate ListsWritable(m: Mem, d: nat) {
    KernelAccess(m, d) && RightsOf(m, d, VM.LISTS) == Some(KERNEL_RIGHTS)
  }

  /** What the allocator then reads in directory and tables. */
  lemma FirstFaultMeans(st: Faults.State, d: nat, dirVirt: u32)
    requires Faults.Ready(st, d, dirVirt) && Faults.Servable(st, d, VM.LISTS)
    requires forall v: u32 :: DirIndex(v) != SELF ==> Walk(st.mem, d, v) == KernelOnly(v)
    ensures var m' := Faults.Fault(st, d, dirVirt, VM.LISTS).mem;
            BootTables(TablesIn(m', d)) && ListsMapped(m', d)
  {
    var m' := Faults.Fault(st, d, dirVirt, VM.LISTS).mem;
    Faults.FaultMeans(st, d, dirVirt, VM.LISTS);
    forall a | 0 <= a < WINDOW
      ensures TablesIn(m', d).Unmapped(a) <==> a < KERNEL_BASE || LISTS_END <= a
    {
      UnmappedIsUntranslated(m', d, a);
    }
  }

  /** The first write to the list headers: its page is mapped, nothing else changes. */
  method TouchLists(paging: P.Paging)
    requires paging.Valid() && Faults.Isolated(paging.View(), paging.Dir())
    requires Faults.Servable(paging.View(), paging.Dir(), VM.LISTS)
    requires forall v: u32 :: DirIndex(v) != SELF ==> Walk(paging.machine.mem[..], paging.Dir(), v) == KernelOnly(v)
    requires KernelAccess(paging.machine.mem[..], paging.Dir())
    modifies paging.machine.mem, paging.pmm.frames.addr, paging.tablesVirt, paging.tablesPhys
    ensures paging.Valid() && Faults.Isolated(paging.View(), paging.Dir())
    ensures paging.View() == Faults.Fault(old(paging.View()), paging.Dir(), paging.dirVirt, VM.LISTS)
    ensures BootTables(TablesIn(paging.machine.mem[..], paging.Dir()))
    ensures ListsMapped(paging.machine.mem[..], paging.Dir())
    ensures ListsWritable(paging.machine.mem[..], paging.Dir())
  {
    FaultKeepsAccess(paging.View(), paging.Dir(), paging.dirVirt, VM.LISTS);
    FirstFaultMeans(paging.View(), paging.Dir(), paging.dirVirt);
    Faults.FaultKeepsIsolation(paging.View(), paging.Dir(), paging.dirVirt, VM.LISTS);
    paging.HandleFault(VM.LISTS);
  }

  /** `vmm_initialize` on the tables it finds then. */
  method StartLists(m: P.Machine) returns (vmm: VM.Vmm)
    requires !m.pse && BootTables(TablesIn(m.mem[..], m.cr3 / PAGE))
    ensures vmm.Valid() && vmm.View() == Model.State(BootList(WINDOW), [])
    ensures vmm.count == 3 && VM.NodeAddr(vmm.count) <= LISTS_END
    ensures vmm.managed == Blocks.Addrs(BootList(WINDOW))
    ensures forall a: u32 :: a in vmm.managed <==> a < WINDOW && m.Phys(a) == None
  {
    var t := TablesIn(m.mem[..], m.cr3 / PAGE);
    vmm := new VM.Vmm.Initialize(t);
    forall a: u32
      ensures t.Unmapped(a) <==> m.Phys(a) == None
    {
      UnmappedIsUntranslated(m.mem[..], m.cr3 / PAGE, a);
    }
    BootListIsCollected(t, vmm.View().free, WINDOW);
    ThreeNodes(t, vmm.count);
  }

  /** Paging is up, and nothing but the kernel's 4 MB and the page of the list headers is mapped. */
  ghost predicate PagingUp(paging: P.Paging)
    reads paging.machine, paging.machine.mem, paging.pmm.frames.addr, paging.tablesVirt, paging.tablesPhys
  {
    && paging.Valid() && Faults.Isolated(paging.View(), paging.Dir())
    && ListsMapped(paging.machine.mem[..], paging.Dir()) && ListsWritable(paging.machine.mem[..], paging.Dir())
  }

  /** It got there by one fault from a state in which exactly the frames the memory map gives were free. */
  ghost predicate FirstFaulted(mmap: seq<u32>, paging: P.Paging, before: Faults.State)
    requires Frames.Bytes(mmap) && Frames.Tiled(mmap, 0)
    reads paging.machine, paging.machine.mem, paging.pmm.frames.addr
  {
    && (forall f: nat :: f in before.free <==> StartsFree(mmap, f))
    && Faults.Ready(before, paging.Dir(), paging.dirVirt) && Faults.Servable(before, paging.Dir(), VM.LISTS)
    && paging.View() == Faults.Fault(before, paging.Dir(), paging.dirVirt, VM.LISTS)
  }

  method StartTables(memUpper: u32, mmap: seq<u32>, m: P.Machine, kernelEnd: u32)
    returns (paging: P.Paging, ghost before: Faults.State)
    requires Loaded(memUpper, mmap, m, kernelEnd) && TwoStartFree(mmap)
    modifies m, m.mem
    ensures paging.machine == m && PagingUp(paging) && FirstFaulted(mmap, paging, before)
    ensures SameBut(old(m.mem[..]), before.mem, paging.Dir(), paging.Dir() + 1)
    ensures BootTables(TablesIn(m.mem[..], paging.Dir()))
  {
    paging := StartPaging(memUpper, mmap, m, kernelEnd);
    before := paging.View();
    FirstFaultIsServable(before, paging.Dir(), mmap);
    TouchLists(paging);
  }

  /** That leaves paging as it is. */
  method StartBeside(ghost mmap: seq<u32>, m: P.Machine, ghost paging: P.Paging, ghost before: Faults.State)
    returns (vmm: VM.Vmm)
    requires Frames.Bytes(mmap) && Frames.Tiled(mmap, 0)
    requires paging.machine == m && PagingUp(paging) && FirstFaulted(mmap, paging, before)
    requires BootTables(TablesIn(m.mem[..], paging.Dir()))
    ensures PagingUp(paging) && FirstFaulted(mmap, paging, before)
    ensures vmm.Valid() && vmm.View() == Model.State(BootList(WINDOW), [])
    ensures vmm.count == 3 && VM.NodeAddr(vmm.count) <= LISTS_END
    ensures vmm.managed == Blocks.Addrs(BootList(WINDOW))
    ensures forall a: u32 :: a in vmm.managed <==> a < WINDOW && m.Phys(a) == None
  {
    vmm := StartLists(m);
  }

  /** `kernel_main` up to the first allocation. After it everything below the window is free but the kernel's
      4 MB and one page, which holds every node of the allocator's lists; so no further fault happened while
      the tables were read. */
  method Start(memUpper: u32, mmap: seq<u32>, m: P.Machine, kernelEnd: u32)
    returns (paging: P.Paging, vmm: VM.Vmm, ghost before: Faults.State)
    requires Loaded(memUpper, mmap, m, kernelEnd) && TwoStartFree(mmap)
    modifies m, m.mem
    ensures paging.machine == m && PagingUp(paging) && FirstFaulted(mmap, paging, before)
    ensures SameBut(old(m.mem[..]), before.mem, paging.Dir(), paging.Dir() + 1)
    ensures vmm.Valid() && vmm.View() == Model.State(BootList(WINDOW), [])
    ensures vmm.count == 3 && VM.NodeAddr(vmm.count) <= LISTS_END
    ensures vmm.managed == Blocks.Addrs(BootList(WINDOW))
    ensures forall a: u32 :: a in vmm.managed <==> a < WINDOW && m.Phys(a) == None
  {
    paging, before := StartTables(memUpper, mmap, m, kernelEnd);
    vmm := StartBeside(mmap, m, paging, before);
  }
}
