/** Paging: every access the kernel makes to a table goes through the translation it is changing. */
module Paging {
  import opened Word
  import opened PageModel
  import opened FaultModel
  import opened PhysicalMemory
  import Frames = FrameModel

  /** Physical memory and the two control registers that decide how addresses are translated. */
  class Machine {
    const mem: array<u32>
    var cr3: u32
    var pse: bool

    constructor (mem: array<u32>, cr3: u32)
      ensures this.mem == mem && this.cr3 == cr3 && pse
    {
      this.mem, this.cr3, pse := mem, cr3, true;
    }

    function Phys(v: u32): Option<nat>
      reads this, mem
    {
      Translate(mem[..], cr3 / PAGE, pse, v)
    }

    method Load(v: u32) returns (w: u32)
      requires Phys(v).Some? && Phys(v).value / 4 < mem.Length
      ensures w == mem[Phys(v).value / 4]
    {
      w := mem[Phys(v).value / 4];
    }

    method Store(v: u32, w: u32)
      requires Phys(v).Some? && Phys(v).value / 4 < mem.Length
      modifies mem
      ensures mem[..] == old(mem[..])[old(Phys(v).value) / 4 := w]
    {
      mem[Phys(v).value / 4] := w;
    }

    /** Store word `k` of a page that shows frame `f`. */
    method StoreIn(virt: u32, k: nat, w: u32, ghost f: nat)
      requires k < 1024 && WindowOnto(mem[..], cr3 / PAGE, pse, virt, f)
      modifies mem
      ensures mem[..] == Write(old(mem[..]), f, k, w) && SameOutside(old(mem[..]), mem[..], f)
      ensures WindowOnto(mem[..], cr3 / PAGE, pse, virt, f)
    {
      ghost var m := mem[..];
      assert SameOutside(m, m, f);
      assert ShowsWord(m, cr3 / PAGE, pse, virt, f, k);
      Store(virt + 4 * k, w);
      forall g: nat, j: nat | j < 1024
        ensures WordAt(mem[..], g, j) == if g == f && j == k then w else WordAt(m, g, j)
      {
        WordWrite(m, f, k, w, g, j);
      }
    }

    /** `memset` of a page, and the loops that fill a table, word by word. */
    method FillIn(virt: u32, w: u32, ghost f: nat)
      requires WindowOnto(mem[..], cr3 / PAGE, pse, virt, f)
      modifies mem
      ensures mem[..] == Fill(old(mem[..]), f, w) && SameOutside(old(mem[..]), mem[..], f)
      ensures WindowOnto(mem[..], cr3 / PAGE, pse, virt, f)
    {
      ghost var m := mem[..];
      for k := 0 to 1024
        invariant WindowOnto(mem[..], cr3 / PAGE, pse, virt, f) && SameOutside(m, mem[..], f)
        invariant forall j: nat :: j < k ==> WordAt(mem[..], f, j) == w
      {
        ghost var m1 := mem[..];
        StoreIn(virt, k, w, f);
        forall j: nat | j < 1024
          ensures WordAt(mem[..], f, j) == if j == k then w else WordAt(m1, f, j)
        {
          WordWrite(m1, f, k, w, f, j);
        }
      }
      forall g: nat, j: nat | j < 1024
        ensures WordAt(mem[..], g, j) == WordAt(Fill(m, f, w), g, j)
      {
        WordFill(m, f, w, g, j);
      }
      SameWords(mem[..], Fill(m, f, w));
    }

    /** The writes of `paging_initialize`, while the boot directory is still in force. */
    method BuildTables(dirVirt: u32, tableVirt: u32, ghost d: nat)
      requires pse && mem.Length <= 0x4000_0000 && d + 1 < 1024 && 1024 <= FrameCount(mem[..])
      requires WordAt(mem[..], cr3 / PAGE, KERNEL) == 0x83 && cr3 / PAGE < d
      requires dirVirt == KERNEL_BASE + d * PAGE && tableVirt == dirVirt + PAGE
      modifies mem
      ensures Initialized(mem[..], d, d + 1) && SameBut(old(mem[..]), mem[..], d, d + 1)
    {
      BootWindow(mem[..], cr3 / PAGE, d, dirVirt);
      FillIn(dirVirt, 0, d);
      FillIn(dirVirt, 2, d);
      ghost var m1 := mem[..];
      FillTable(tableVirt, d + 1);
      ghost var m2 := mem[..];
      BootWindow(m2, cr3 / PAGE, d, dirVirt);
      StoreIn(dirVirt, KERNEL, tableVirt - KERNEL_BASE + 3, d);
      ghost var m3 := mem[..];
      StoreIn(dirVirt, SELF, dirVirt - KERNEL_BASE + 3, d);
      forall i: nat | i < 1024
        ensures WordAt(mem[..], d, i) == DirectoryWord(d, d + 1, i)
        ensures WordAt(mem[..], d + 1, i) == WordAt(m2, d + 1, i)
      {
        WordFill(m1, d, 2, d, i);
        WordWrite(m2, d, KERNEL, EntryFor(d + 1), d, i);
        WordWrite(m3, d, SELF, EntryFor(d), d, i);
      }
    }

    /** The identity table: entry i names frame i. */
    method FillTable(virt: u32, ghost f: nat)
      requires pse && WordAt(mem[..], cr3 / PAGE, KERNEL) == 0x83
      requires cr3 / PAGE < f < 1024 && f < FrameCount(mem[..]) && virt == KERNEL_BASE + f * PAGE
      modifies mem
      ensures SameOutside(old(mem[..]), mem[..], f)
      ensures forall i: nat :: i < 1024 ==> WordAt(mem[..], f, i) == i * PAGE + 3
    {
      ghost var m := mem[..];
      BootWindow(m, cr3 / PAGE, f, virt);
      FillIn(virt, 0, f);
      for k := 0 to 1024
        invariant WindowOnto(mem[..], cr3 / PAGE, pse, virt, f) && SameOutside(m, mem[..], f)
        invariant forall i: nat :: i < k ==> WordAt(mem[..], f, i) == i * PAGE + 3
      {
        ghost var m1 := mem[..];
        StoreIn(virt, k, k * PAGE + 3, f);
        forall i: nat | i < 1024
          ensures WordAt(mem[..], f, i) == if i == k then k * PAGE + 3 else WordAt(m1, f, i)
        {
          WordWrite(m1, f, k, k * PAGE + 3, f, i);
        }
      }
    }
  }

  /** The record of entry `i` holds the table's recursive address and its frame. */
  ghost predicate Recorded(m: Mem, d: nat, tv: seq<u32>, tp: seq<u32>, i: nat) {
    i < |tv| && i < |tp| && (HasTable(m, d, i) ==> tv[i] == WINDOW + PAGE * i && tp[i] == Table(m, d, i) * PAGE)
  }

  ghost predicate AllRecorded(m: Mem, d: nat, tv: seq<u32>, tp: seq<u32>) {
    forall i :: 0 <= i < SELF ==> Recorded(m, d, tv, tp, i)
  }

  /** Records follow the directory's words. */
  lemma RecordsFollow(m: Mem, m': Mem, d: nat, tv: seq<u32>, tp: seq<u32>)
    requires AllRecorded(m, d, tv, tp)
    requires forall i: nat :: i < 1024 ==> WordAt(m', d, i) == WordAt(m, d, i)
    ensures AllRecorded(m', d, tv, tp)
  {
    forall i | 0 <= i < SELF
      ensures Recorded(m', d, tv, tp, i)
    {
      assert Recorded(m, d, tv, tp, i) && WordAt(m', d, i) == WordAt(m, d, i);
    }
  }

  lemma NewRecord(m: Mem, d: nat, dirVirt: u32, tv: seq<u32>, tp: seq<u32>, i: nat, t: nat)
    requires AllRecorded(m, d, tv, tp) && |tv| == |tp| == 1024
    requires Sound(m, d, dirVirt) && i < SELF && !HasTable(m, d, i) && Unused(m, d, t) && t < FRAMES
    ensures AllRecorded(WithTable(m, d, i, t), d, tv[i := WINDOW + PAGE * i], tp[i := t * PAGE])
  {
    var m', tv', tp' := WithTable(m, d, i, t), tv[i := WINDOW + PAGE * i], tp[i := t * PAGE];
    forall k | 0 <= k < SELF
      ensures Recorded(m', d, tv', tp', k)
    {
      assert Recorded(m, d, tv, tp, k);
      WithTableEntries(m, d, dirVirt, i, t, k);
    }
  }

  /** The first page boundary at or after `a`. */
  function PageAfter(a: nat): nat {
    if a % PAGE != 0 then a - a % PAGE + PAGE else a
  }

  lemma PageAfterIsLeast(a: nat)
    ensures PageAfter(a) % PAGE == 0 && a <= PageAfter(a) < a + PAGE
  {
  }

  lemma OnlyKernelTable(m: Mem, d: nat, t: nat, tv: seq<u32>, tp: seq<u32>)
    requires Initialized(m, d, t) && |tv| == |tp| == 1024
    requires tv[KERNEL] == WINDOW + PAGE * KERNEL && tp[KERNEL] == t * PAGE
    ensures AllRecorded(m, d, tv, tp)
  {
  }

  class Paging {
    const machine: Machine
    const pmm: Pmm
    const dirVirt: u32               // kernel_page_directory.virt_addr
    const dirPhys: u32               // kernel_page_directory.phys_addr
    const tablesVirt: array<u32>     // kernel_page_directory.tables[i].virt_addr
    const tablesPhys: array<u32>     // kernel_page_directory.tables[i].phys_addr

    ghost function Dir(): nat { dirPhys / PAGE }

    ghost function View(): State
      reads machine.mem, pmm.frames.addr
    {
      State(machine.mem[..], pmm.Free())
    }

    /** What no operation after `paging_initialize` ever changes. */
    ghost predicate Fixed()
      reads machine
    {
      && machine.cr3 == dirPhys && !machine.pse && dirPhys % PAGE == 0
      && tablesVirt.Length == 1024 && tablesPhys.Length == 1024 && Apart()
    }

    /** The arrays do not overlap. */
    ghost predicate Apart() {
      && tablesVirt != tablesPhys && tablesVirt != machine.mem && tablesPhys != machine.mem
      && (pmm.frames.addr as object) !in {machine.mem as object, tablesVirt as object, tablesPhys as object}
    }

    ghost predicate Valid()
      reads machine, machine.mem, pmm.frames.addr, tablesVirt, tablesPhys
    {
      Fixed() && Ready(View(), Dir(), dirVirt) && AllRecorded(machine.mem[..], Dir(), tablesVirt[..], tablesPhys[..])
    }

    /** Build the new directory and the kernel's table right behind the frame bitmap, and switch to them. The
        frames must lie inside the 4 MB mapped at boot, above the boot directory. */
    constructor Initialize(m: Machine, p: Pmm, bitmapVirt: u32)
      requires m.pse && SPAN / 4 <= m.mem.Length <= 0x4000_0000
      requires BootDirectory(m.mem[..], m.cr3 / PAGE)
      requires KERNEL_BASE + 0x10_0000 <= bitmapVirt && KERNEL_BASE + m.cr3 < bitmapVirt
      requires PageAfter(bitmapVirt + p.frames.addr.Length) + 2 * PAGE <= KERNEL_BASE + SPAN
      requires forall f :: f in p.Free() ==> 1024 <= f < FrameCount(m.mem[..])
      requires (p.frames.addr as object) != m.mem as object
      modifies m, m.mem
      ensures Valid() && machine == m && pmm == p && fresh(tablesVirt) && fresh(tablesPhys)
      ensures dirVirt == PageAfter(bitmapVirt + p.frames.addr.Length)
      ensures Initialized(m.mem[..], Dir(), Dir() + 1) && SameBut(old(m.mem[..]), m.mem[..], Dir(), Dir() + 1)
      ensures forall v: u32 :: DirIndex(v) != SELF ==> m.Phys(v) == old(m.Phys(v))
      ensures Isolated(View(), Dir())
    {
      var pageDirVirt: u32 := PageAfter(bitmapVirt + p.frames.addr.Length);
      var pageDirPhys: u32 := pageDirVirt - KERNEL_BASE;
      machine, pmm := m, p;
      dirVirt, dirPhys := pageDirVirt, pageDirPhys;
      tablesVirt := new u32[1024](_ => 0);
      tablesPhys := new u32[1024](_ => 0);
      new;
      Switch();
    }

    /** The writes to memory and records, and the switch itself. */
    method Switch()
      requires machine.pse && SPAN / 4 <= machine.mem.Length <= 0x4000_0000
      requires BootDirectory(machine.mem[..], machine.cr3 / PAGE) && machine.cr3 / PAGE < Dir()
      requires dirPhys % PAGE == 0 && dirVirt == KERNEL_BASE + dirPhys && 0x100 <= Dir() < 1023
      requires forall f :: f in pmm.Free() ==> 1024 <= f < FrameCount(machine.mem[..])
      requires tablesVirt.Length == 1024 && tablesPhys.Length == 1024 && Apart()
      modifies machine, machine.mem, tablesVirt, tablesPhys
      ensures Valid() && Isolated(View(), Dir())
      ensures Initialized(machine.mem[..], Dir(), Dir() + 1)
      ensures SameBut(old(machine.mem[..]), machine.mem[..], Dir(), Dir() + 1)
      ensures forall v: u32 :: DirIndex(v) != SELF ==> machine.Phys(v) == old(machine.Phys(v))
    {
      ghost var m0, b := machine.mem[..], machine.cr3 / PAGE;
      machine.BuildTables(dirVirt, dirVirt + PAGE, Dir());
      SwitchKeepsEveryTranslation(m0, b, machine.mem[..], Dir(), Dir() + 1);
      tablesVirt[KERNEL] := 0xFFF0_0000;
      tablesPhys[KERNEL] := dirPhys + PAGE;
      tablesVirt[SELF] := WINDOW;
      tablesPhys[SELF] := dirPhys;
      machine.pse := false;
      machine.cr3 := dirPhys;
      SwitchStartsIsolated(machine.mem[..], Dir(), Dir() + 1, pmm.Free(), dirVirt);
      OnlyKernelTable(machine.mem[..], Dir(), Dir() + 1, tablesVirt[..], tablesPhys[..]);
    }

    // -------------------------------------------------------------- accesses through the mapping

    /** page_directory[i] */
    method LoadDirectory(i: nat) returns (w: u32)
      requires Fixed() && Sound(machine.mem[..], Dir(), dirVirt) && i < 1024
      ensures w == WordAt(machine.mem[..], Dir(), i)
    {
      DirectoryReached(machine.mem[..], Dir(), dirVirt, i);
      w := machine.Load(dirVirt + 4 * i);
    }

    /** page_directory[i] = w */
    method StoreDirectory(i: nat, w: u32)
      requires Fixed() && Sound(machine.mem[..], Dir(), dirVirt) && i < 1024
      modifies machine.mem
      ensures machine.mem[..] == Write(old(machine.mem[..]), Dir(), i, w)
    {
      DirectoryReached(machine.mem[..], Dir(), dirVirt, i);
      machine.Store(dirVirt + 4 * i, w);
    }

    /** tables[i].virt_addr[j] */
    method LoadTable(i: nat, j: nat) returns (w: u32)
      requires Fixed() && Sound(machine.mem[..], Dir(), dirVirt) && i < SELF && j < 1024
      requires HasTable(machine.mem[..], Dir(), i) && tablesVirt[i] == WINDOW + PAGE * i
      ensures w == WordAt(machine.mem[..], Table(machine.mem[..], Dir(), i), j)
    {
      TableReached(machine.mem[..], Dir(), dirVirt, i, j);
      SameTable(machine.mem[..], Dir(), dirVirt, i, i);
      w := machine.Load(tablesVirt[i] + 4 * j);
    }

    /** tables[i].virt_addr[j] = w */
    method StoreTable(i: nat, j: nat, w: u32)
      requires Fixed() && Sound(machine.mem[..], Dir(), dirVirt) && i < SELF && j < 1024
      requires HasTable(machine.mem[..], Dir(), i) && tablesVirt[i] == WINDOW + PAGE * i
      modifies machine.mem
      ensures Table(old(machine.mem[..]), Dir(), i) < FrameCount(old(machine.mem[..]))
      ensures machine.mem[..] == Write(old(machine.mem[..]), Table(old(machine.mem[..]), Dir(), i), j, w)
    {
      TableReached(machine.mem[..], Dir(), dirVirt, i, j);
      SameTable(machine.mem[..], Dir(), dirVirt, i, i);
      machine.Store(tablesVirt[i] + 4 * j, w);
    }

    // -------------------------------------------------------------- virt_to_phys

    /** The software walk is the hardware walk, also inside the recursive window. */
    method VirtToPhys(virt: u32) returns (result: nat)
      requires Valid()
      ensures result == match Walk(machine.mem[..], Dir(), virt) case Some(p) => p case None => 0xFFFF_FFFF
    {
      ghost var m := machine.mem[..];
      PageIsIndices(virt, virt);
      result := 0xFFFF_FFFF;
      var pageDirIndex := virt / SPAN;
      var pageTableIndex := virt / PAGE % 1024;
      var pde := LoadDirectory(pageDirIndex);
      if Present(pde) {
        var pte: u32;
        if pageDirIndex == 1023 {
          pte := LoadDirectory(pageTableIndex);
        } else {
          assert Recorded(m, Dir(), tablesVirt[..], tablesPhys[..], pageDirIndex);
          pte := LoadTable(pageDirIndex, pageTableIndex);
        }
        if Present(pte) {
          result := pte - pte % PAGE + virt % PAGE;
        }
      }
    }

    // -------------------------------------------------------------- map_page

    lemma FreeHaveAddresses()
      requires Ready(View(), Dir(), dirVirt)
      ensures pmm.Valid()
    {
    }

    /** alloc_frame, once more if it handed out the very frame being mapped. */
    method AllocTableFrame(physPage: u32) returns (tablePhys: u32)
      requires Valid() && physPage % PAGE == 0 && pmm.Free() - {physPage / PAGE} != {}
      modifies pmm.frames.addr
      ensures tablePhys == TableFrame(old(pmm.Free()), physPage) * PAGE
      ensures pmm.Free() == old(pmm.Free()) - {TableFrame(old(pmm.Free()), physPage)}
    {
      ghost var free := pmm.Free();
      ClashIsSkipped(free, physPage);
      FreeHaveAddresses();
      tablePhys := pmm.AllocFrame();
      if tablePhys == physPage {
        var temp := tablePhys;
        tablePhys := pmm.AllocFrame();
        pmm.FreeFrame(temp);
      }
    }

    /** Point the kernel's page SCRATCH at `tablePhys`. */
    method BorrowScratch(tablePhys: u32) returns (saved: u32)
      requires Fixed() && Sound(machine.mem[..], Dir(), dirVirt) && tablesVirt[KERNEL] == WINDOW + PAGE * KERNEL
      requires tablePhys % PAGE == 0 && Unused(machine.mem[..], Dir(), tablePhys / PAGE)
      modifies machine.mem
      ensures Table(old(machine.mem[..]), Dir(), KERNEL) < FrameCount(old(machine.mem[..]))
      ensures saved == WordAt(old(machine.mem[..]), Table(old(machine.mem[..]), Dir(), KERNEL), SCRATCH)
      ensures machine.mem[..] == Borrowed(old(machine.mem[..]), Dir(), tablePhys / PAGE)
      ensures Sound(machine.mem[..], Dir(), dirVirt) && Unused(machine.mem[..], Dir(), tablePhys / PAGE)
      ensures WindowOnto(machine.mem[..], Dir(), false, SCRATCH_ADDR, tablePhys / PAGE)
      ensures forall k: nat :: k < 1024 ==> WordAt(machine.mem[..], Dir(), k) == WordAt(old(machine.mem[..]), Dir(), k)
    {
      BorrowedIsSound(machine.mem[..], Dir(), dirVirt, tablePhys / PAGE);
      saved := LoadTable(KERNEL, SCRATCH);
      StoreTable(KERNEL, SCRATCH, tablePhys + 3);
    }

    /** Clear the frame seen through the borrowed page and fill it with absent, writable entries. */
    method EmptyTable(ghost t: nat)
      requires Fixed() && Sound(machine.mem[..], Dir(), dirVirt) && Unused(machine.mem[..], Dir(), t)
      requires WindowOnto(machine.mem[..], Dir(), false, SCRATCH_ADDR, t)
      modifies machine.mem
      ensures machine.mem[..] == Fill(old(machine.mem[..]), t, 2) && Sound(machine.mem[..], Dir(), dirVirt)
    {
      ghost var m := machine.mem[..];
      machine.FillIn(SCRATCH_ADDR, 0, t);
      machine.FillIn(SCRATCH_ADDR, 2, t);
      FilledTwice(m, t, 0, 2);
      UnusedFrameFilled(m, Dir(), dirVirt, t, 2);
    }

    /** Enter the table in the directory and in the records. */
    method PublishTable(pageDirIndex: nat, tablePhys: u32)
      requires Fixed() && Sound(machine.mem[..], Dir(), dirVirt) && pageDirIndex < SELF
      requires tablePhys % PAGE == 0
      modifies machine.mem, tablesVirt, tablesPhys
      ensures machine.mem[..] == Write(old(machine.mem[..]), Dir(), pageDirIndex, EntryFor(tablePhys / PAGE))
      ensures tablesVirt[..] == old(tablesVirt[..])[pageDirIndex := WINDOW + PAGE * pageDirIndex]
      ensures tablesPhys[..] == old(tablesPhys[..])[pageDirIndex := tablePhys]
    {
      StoreDirectory(pageDirIndex, tablePhys + 3);
      tablesVirt[pageDirIndex] := WINDOW + PAGE * pageDirIndex;
      tablesPhys[pageDirIndex] := tablePhys;
    }

    /** Create a table in frame `tablePhys` through the borrowed kernel page, and restore that page. */
    method InstallTable(pageDirIndex: nat, tablePhys: u32)
      requires Fixed() && Sound(machine.mem[..], Dir(), dirVirt) && pageDirIndex < SELF
      requires !HasTable(machine.mem[..], Dir(), pageDirIndex)
      requires tablePhys % PAGE == 0 && Unused(machine.mem[..], Dir(), tablePhys / PAGE)
      requires tablesVirt[KERNEL] == WINDOW + PAGE * KERNEL
      modifies machine.mem, tablesVirt, tablesPhys
      ensures machine.mem[..] == WithTable(old(machine.mem[..]), Dir(), pageDirIndex, tablePhys / PAGE)
      ensures tablesVirt[..] == old(tablesVirt[..])[pageDirIndex := WINDOW + PAGE * pageDirIndex]
      ensures tablesPhys[..] == old(tablesPhys[..])[pageDirIndex := tablePhys]
    {
      ghost var m0, t := machine.mem[..], tablePhys / PAGE;
      var saved := BorrowScratch(tablePhys);
      ghost var m1 := machine.mem[..];
      EmptyTable(t);
      PublishTable(pageDirIndex, tablePhys);
      assert machine.mem[..] == WithTable(m1, Dir(), pageDirIndex, t);
      TableCreated(m1, Dir(), dirVirt, pageDirIndex, t);
      WithTableEntries(m1, Dir(), dirVirt, pageDirIndex, t, KERNEL);
      StoreTable(KERNEL, SCRATCH, saved);
      BorrowedPageRestored(m0, Dir(), dirVirt, pageDirIndex, t);
    }

    method CreateTable(pageDirIndex: nat, physPage: u32)
      requires Valid() && physPage % PAGE == 0 && pageDirIndex < SELF
      requires !HasTable(machine.mem[..], Dir(), pageDirIndex) && pmm.Free() - {physPage / PAGE} != {}
      modifies machine.mem, pmm.frames.addr, tablesVirt, tablesPhys
      ensures Fixed() && AllRecorded(machine.mem[..], Dir(), tablesVirt[..], tablesPhys[..])
      ensures var t := TableFrame(old(pmm.Free()), physPage);
              && t < FrameCount(old(machine.mem[..]))
              && machine.mem[..] == WithTable(old(machine.mem[..]), Dir(), pageDirIndex, t)
              && pmm.Free() == old(pmm.Free()) - {t}
    {
      ghost var m, tv, tp := machine.mem[..], tablesVirt[..], tablesPhys[..];
      ghost var t := TableFrame(pmm.Free(), physPage);
      assert Unused(m, Dir(), t);
      assert Recorded(m, Dir(), tv, tp, KERNEL);
      NewRecord(m, Dir(), dirVirt, tv, tp, pageDirIndex, t);
      var tablePhys := AllocTableFrame(physPage);
      assert tablePhys / PAGE == t && tablePhys % PAGE == 0;
      InstallTable(pageDirIndex, tablePhys);
    }

    /** Make sure that there is a table for the page. */
    method EnsureTable(virt: u32, physPage: u32)
      requires Valid() && physPage % PAGE == 0
      requires Mappable(dirVirt, virt) && CanMap(View(), Dir(), virt, physPage)
      modifies machine.mem, pmm.frames.addr, tablesVirt, tablesPhys
      ensures Valid() && View() == Prepare(old(View()), Dir(), dirVirt, virt, physPage)
    {
      PageIsIndices(virt, virt);
      PrepareMeans(View(), Dir(), dirVirt, virt, physPage);
      var pageDirIndex := virt / SPAN;
      var pde := LoadDirectory(pageDirIndex);
      if !Present(pde) {
        CreateTable(pageDirIndex, physPage);
      }
    }

    method MapPage(virt: u32, phys: u32)
      requires Valid() && Mappable(dirVirt, virt) && CanMap(View(), Dir(), virt, phys)
      modifies machine.mem, pmm.frames.addr, tablesVirt, tablesPhys
      ensures Valid() && View() == Map(old(View()), Dir(), dirVirt, virt, phys)
    {
      var virtPage: u32 := virt - virt % PAGE;
      var physPage: u32 := phys - phys % PAGE;
      MapOfPage(View(), Dir(), dirVirt, virt, phys);
      MapInHalves(View(), Dir(), dirVirt, virtPage, physPage);
      EnsureTable(virtPage, physPage);
      StoreEntry(virtPage, physPage);
    }

    method GetTableAttribs(pageDirIndex: nat) returns (attribs: u32)
      requires Fixed() && Sound(machine.mem[..], Dir(), dirVirt) && pageDirIndex < 1024
      ensures attribs == WordAt(machine.mem[..], Dir(), pageDirIndex) % PAGE
    {
      var pde := LoadDirectory(pageDirIndex);
      attribs := pde % PAGE;
    }

    /** Write the entry of the page, with the attributes of its table. */
    method StoreEntry(virt: u32, physPage: u32)
      requires Valid() && Mappable(dirVirt, virt) && physPage % PAGE == 0
      requires HasTable(machine.mem[..], Dir(), DirIndex(virt))
      modifies machine.mem
      ensures Table(old(machine.mem[..]), Dir(), DirIndex(virt)) < FrameCount(old(machine.mem[..]))
      ensures machine.mem[..] == MapIn(old(machine.mem[..]), Dir(), virt, physPage)
      ensures Valid()
    {
      ghost var m := machine.mem[..];
      var pageDirIndex := virt / SPAN;
      var pageTableIndex := virt / PAGE % 1024;
      PageIsIndices(virt, virt);
      MapInMeans(m, Dir(), dirVirt, virt, physPage);
      var attribs := GetTableAttribs(pageDirIndex);
      EntryWord(physPage, WordAt(m, Dir(), pageDirIndex));
      assert Recorded(m, Dir(), tablesVirt[..], tablesPhys[..], pageDirIndex);
      StoreTable(pageDirIndex, pageTableIndex, physPage + attribs);
      RecordsFollow(m, machine.mem[..], Dir(), tablesVirt[..], tablesPhys[..]);
    }

    // -------------------------------------------------------------- unmap_page and the fault handler

    method UnmapPage(virt: u32)
      requires Valid() && Mappable(dirVirt, virt)
      modifies machine.mem
      ensures Valid()
      ensures HasTable(old(machine.mem[..]), Dir(), DirIndex(virt)) ==>
                Table(old(machine.mem[..]), Dir(), DirIndex(virt)) < FrameCount(old(machine.mem[..]))
      ensures machine.mem[..] == PageModel.UnmapPage(old(machine.mem[..]), Dir(), virt)
    {
      ghost var m := machine.mem[..];
      var virtPage: u32 := virt - virt % PAGE;
      PageIsIndices(virt, virtPage);
      assert PageOf(virt) == PageOf(virtPage);
      UnmapPageMeans(m, Dir(), dirVirt, virt);
      var pageDirIndex := virtPage / SPAN;
      var pageTableIndex := virtPage / PAGE % 1024;
      var pde := LoadDirectory(pageDirIndex);
      if Present(pde) {
        assert Recorded(m, Dir(), tablesVirt[..], tablesPhys[..], pageDirIndex);
        EntryWritten(m, Dir(), dirVirt, pageDirIndex, pageTableIndex, 0);
        StoreTable(pageDirIndex, pageTableIndex, 0);
        RecordsFollow(m, machine.mem[..], Dir(), tablesVirt[..], tablesPhys[..]);
      }
    }

    /** The not-present branch of the page fault handler. */
    method HandleFault(faultingVirt: u32)
      requires Valid() && Servable(View(), Dir(), faultingVirt)
      modifies machine.mem, pmm.frames.addr, tablesVirt, tablesPhys
      ensures Valid() && View() == Fault(old(View()), Dir(), dirVirt, faultingVirt)
    {
      ServableIsMappable(View(), Dir(), dirVirt, faultingVirt);
      FreeHaveAddresses();
      var physAddr := pmm.AllocFrame();
      MapPage(faultingVirt, physAddr);
    }
  }
}
