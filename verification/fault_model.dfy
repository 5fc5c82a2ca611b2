/** Mapping pages on demand: memory and the set of free frames together, over whole runs of page faults. */
module FaultModel {
  import opened Word
  import opened PageModel
  import Frames = FrameModel

  datatype State = State(mem: Mem, free: set<nat>)

  /** The frame a new table gets while `phys` is being mapped: the least free one, or, if that is the very
      frame being mapped, the next. */
  ghost function TableFrame(free: set<nat>, phys: u32): nat
    requires free - {phys / PAGE} != {}
  {
    Frames.Least(free - {phys / PAGE})
  }

  /** Allocating, noticing the clash, allocating again and releasing the first comes to that. */
  lemma ClashIsSkipped(free: set<nat>, phys: u32)
    requires free - {phys / PAGE} != {}
    ensures var t := Frames.Least(free);
            var t' := TableFrame(free, phys);
            if t == phys / PAGE then t' == Frames.Least(free - {t}) && free - {t} - {t'} + {t} == free - {t'}
            else t' == t
    ensures TableFrame(free, phys) != phys / PAGE
  {
    var t := Frames.Least(free);
    if t != phys / PAGE {
      assert Frames.IsLeast(free - {phys / PAGE}, t);
    } else {
      var t' := TableFrame(free, phys);
      assert free - {t} - {t'} + {t} == free - {t'};
    }
  }

  ghost predicate Ready(st: State, d: nat, dirVirt: u32) {
    Sound(st.mem, d, dirVirt) && forall f :: f in st.free ==> Unused(st.mem, d, f)
  }

  /** A table is there, or some frame other than the one being mapped is free for it. */
  ghost predicate CanMap(st: State, d: nat, virt: u32, phys: u32) {
    !HasTable(st.mem, d, DirIndex(virt)) ==> st.free - {phys / PAGE} != {}
  }

  /** The first half of `map_page`: make sure that there is a table for the page. */
  ghost function Prepare(st: State, d: nat, dirVirt: u32, virt: u32, phys: u32): State
    requires Ready(st, d, dirVirt) && Mappable(dirVirt, virt) && CanMap(st, d, virt, phys)
  {
    if HasTable(st.mem, d, DirIndex(virt)) then st
    else
      var t := TableFrame(st.free, phys);
      assert Unused(st.mem, d, t);
      PageIsIndices(virt, virt);
      State(WithTable(st.mem, d, DirIndex(virt), t), st.free - {t})
  }

  /** Of the frames in `free` at most one is missing in `free'`, and not `kept`. */
  ghost predicate AtMostOneTaken(free: set<nat>, free': set<nat>, kept: nat) {
    free' == free || exists t :: t in free && t != kept && free' == free - {t}
  }

  lemma PrepareMeans(st: State, d: nat, dirVirt: u32, virt: u32, phys: u32)
    requires Ready(st, d, dirVirt) && Mappable(dirVirt, virt) && CanMap(st, d, virt, phys)
    ensures var st' := Prepare(st, d, dirVirt, virt, phys);
            && Ready(st', d, dirVirt) && HasTable(st'.mem, d, DirIndex(virt))
            && Table(st'.mem, d, DirIndex(virt)) < FrameCount(st'.mem)
            && AtMostOneTaken(st.free, st'.free, phys / PAGE)
            && (HasTable(st.mem, d, DirIndex(virt)) ==> st'.free == st.free)
            && (forall v: u32 :: DirIndex(v) != SELF ==> Walk(st'.mem, d, v) == Walk(st.mem, d, v))
            && (forall f :: Unused(st.mem, d, f) && (f !in st.free || f == phys / PAGE) ==> Unused(st'.mem, d, f))
  {
    PageIsIndices(virt, virt);
    if !HasTable(st.mem, d, DirIndex(virt)) {
      assert Unused(st.mem, d, TableFrame(st.free, phys));
      TableCreated(st.mem, d, dirVirt, DirIndex(virt), TableFrame(st.free, phys));
      assert TableFrame(st.free, phys) in st.free;
    }
    SameTable(Prepare(st, d, dirVirt, virt, phys).mem, d, dirVirt, DirIndex(virt), DirIndex(virt));
  }

  /** `map_page` with the frame allocator behind it. */
  ghost function Map(st: State, d: nat, dirVirt: u32, virt: u32, phys: u32): State
    requires Ready(st, d, dirVirt) && Mappable(dirVirt, virt) && CanMap(st, d, virt, phys)
  {
    PrepareMeans(st, d, dirVirt, virt, phys);
    var st' := Prepare(st, d, dirVirt, virt, phys);
    State(MapIn(st'.mem, d, virt, phys), st'.free)
  }

  /** Only the pages of the two addresses matter. */
  lemma MapOfPage(st: State, d: nat, dirVirt: u32, virt: u32, phys: u32)
    requires Ready(st, d, dirVirt) && Mappable(dirVirt, virt) && CanMap(st, d, virt, phys)
    ensures var virtPage, physPage := virt - virt % PAGE, phys - phys % PAGE;
            && physPage % PAGE == 0 && physPage / PAGE == phys / PAGE
            && Mappable(dirVirt, virtPage) && CanMap(st, d, virtPage, physPage)
            && Map(st, d, dirVirt, virtPage, physPage) == Map(st, d, dirVirt, virt, phys)
  {
    var virtPage := virt - virt % PAGE;
    PageIsIndices(virt, virtPage);
    assert PageOf(virtPage) == PageOf(virt);
  }

  /** The two halves of `map_page`. */
  lemma MapInHalves(st: State, d: nat, dirVirt: u32, virt: u32, phys: u32)
    requires Ready(st, d, dirVirt) && Mappable(dirVirt, virt) && CanMap(st, d, virt, phys)
    ensures var st1 := Prepare(st, d, dirVirt, virt, phys);
            && HasTable(st1.mem, d, DirIndex(virt)) && Table(st1.mem, d, DirIndex(virt)) < FrameCount(st1.mem)
            && Map(st, d, dirVirt, virt, phys) == State(MapIn(st1.mem, d, virt, phys), st1.free)
  {
    PrepareMeans(st, d, dirVirt, virt, phys);
  }

  /** `map_page` makes the page of `virt` translate to the frame of `phys` and leaves every other page outside
      the recursive window as it was, whether or not it had to create a table; it takes at most one frame,
      never the one being mapped. */
  lemma MapMeans(st: State, d: nat, dirVirt: u32, virt: u32, phys: u32)
    requires Ready(st, d, dirVirt) && Mappable(dirVirt, virt) && CanMap(st, d, virt, phys)
    ensures var st' := Map(st, d, dirVirt, virt, phys);
            && Ready(st', d, dirVirt) && AtMostOneTaken(st.free, st'.free, phys / PAGE)
            && (HasTable(st.mem, d, DirIndex(virt)) ==> st'.free == st.free)
            && Retranslated(st.mem, st'.mem, d, virt, Some(phys / PAGE))
            && (forall f :: Unused(st.mem, d, f) && (f !in st.free || f == phys / PAGE) ==> Unused(st'.mem, d, f))
  {
    PrepareMeans(st, d, dirVirt, virt, phys);
    MapInMeans(Prepare(st, d, dirVirt, virt, phys).mem, d, dirVirt, virt, phys);
  }

  // ---------------------------------------------------------------- what page faults keep

  /** Outside the recursive window, the page of `v` is mapped to frame `f`. */
  predicate MappedTo(m: Mem, d: nat, v: u32, f: nat) {
    DirIndex(v) != SELF && Walk(m, d, v) == Some(f * PAGE + v % PAGE)
  }

  /** No mapped frame is free, no two pages share a frame, and outside the kernel's own 4 MB no page shows
      the directory or a table. */
  ghost predicate Isolated(st: State, d: nat) {
    && (forall v: u32, f: nat :: MappedTo(st.mem, d, v, f) ==> f !in st.free)
    && (forall v: u32, w: u32, f: nat ::
          MappedTo(st.mem, d, v, f) && MappedTo(st.mem, d, w, f) ==> PageOf(v) == PageOf(w))
    && (forall v: u32, f: nat :: MappedTo(st.mem, d, v, f) && DirIndex(v) != KERNEL ==> Unused(st.mem, d, f))
  }

  /** A not-present fault that the handler can serve. */
  ghost predicate Servable(st: State, d: nat, v: u32) {
    && DirIndex(v) != SELF && Walk(st.mem, d, v) == None && st.free != {}
    && (!HasTable(st.mem, d, DirIndex(v)) ==> st.free - {Frames.Least(st.free)} != {})
  }

  lemma ServableIsMappable(st: State, d: nat, dirVirt: u32, v: u32)
    requires Ready(st, d, dirVirt) && Servable(st, d, v)
    ensures Mappable(dirVirt, v)
    ensures Frames.Least(st.free) * PAGE < WORD
    ensures var p := Frames.Least(st.free);
            Ready(State(st.mem, st.free - {p}), d, dirVirt) && CanMap(State(st.mem, st.free - {p}), d, v, p * PAGE)
  {
  }

  /** What the handler does: take a frame, map the faulting page to it. */
  ghost function Fault(st: State, d: nat, dirVirt: u32, v: u32): State
    requires Ready(st, d, dirVirt) && Servable(st, d, v)
  {
    ServableIsMappable(st, d, dirVirt, v);
    var p := Frames.Least(st.free);
    Map(State(st.mem, st.free - {p}), d, dirVirt, v, p * PAGE)
  }

  lemma FaultMeans(st: State, d: nat, dirVirt: u32, v: u32)
    requires Ready(st, d, dirVirt) && Servable(st, d, v)
    ensures var p, st' := Frames.Least(st.free), Fault(st, d, dirVirt, v);
            && Ready(st', d, dirVirt) && st'.free <= st.free - {p}
            && Retranslated(st.mem, st'.mem, d, v, Some(p))
            && Unused(st'.mem, d, p)
            && (forall f :: Unused(st.mem, d, f) && f !in st.free ==> Unused(st'.mem, d, f))
  {
    ServableIsMappable(st, d, dirVirt, v);
    var p := Frames.Least(st.free);
    assert Unused(st.mem, d, p) && p * PAGE / PAGE == p;
    ServedIsReady(State(st.mem, st.free - {p}), d, dirVirt, v, p);
    ServedIsMapped(State(st.mem, st.free - {p}), d, dirVirt, v, p);
    ServedKeepsUnused(State(st.mem, st.free - {p}), d, dirVirt, v, p);
  }

  lemma ServedIsReady(st: State, d: nat, dirVirt: u32, v: u32, p: nat)
    requires Ready(st, d, dirVirt) && p * PAGE < WORD && Mappable(dirVirt, v) && CanMap(st, d, v, p * PAGE)
    ensures Ready(Map(st, d, dirVirt, v, p * PAGE), d, dirVirt)
  {
    MapMeans(st, d, dirVirt, v, p * PAGE);
  }

  lemma ServedIsMapped(st: State, d: nat, dirVirt: u32, v: u32, p: nat)
    requires Ready(st, d, dirVirt) && p * PAGE < WORD && Mappable(dirVirt, v) && CanMap(st, d, v, p * PAGE)
    ensures Retranslated(st.mem, Map(st, d, dirVirt, v, p * PAGE).mem, d, v, Some(p))
  {
    assert p * PAGE / PAGE == p;
    MapMeans(st, d, dirVirt, v, p * PAGE);
  }

  lemma ServedKeepsUnused(st: State, d: nat, dirVirt: u32, v: u32, p: nat)
    requires Ready(st, d, dirVirt) && p * PAGE < WORD && Mappable(dirVirt, v) && CanMap(st, d, v, p * PAGE)
    requires Unused(st.mem, d, p) && p !in st.free
    ensures var st' := Map(st, d, dirVirt, v, p * PAGE);
            && st'.free <= st.free && Unused(st'.mem, d, p)
            && (forall f :: Unused(st.mem, d, f) && f !in st.free ==> Unused(st'.mem, d, f))
  {
    MapMeans(st, d, dirVirt, v, p * PAGE);
  }

  /** After the fault the page is mapped to the frame taken; every other mapping was there before. */
  lemma MappedAfterFault(st: State, d: nat, dirVirt: u32, v: u32, w: u32, f: nat)
    requires Ready(st, d, dirVirt) && Servable(st, d, v)
    requires MappedTo(Fault(st, d, dirVirt, v).mem, d, w, f)
    ensures if PageOf(w) == PageOf(v) then f == Frames.Least(st.free) else MappedTo(st.mem, d, w, f)
  {
    FaultMeans(st, d, dirVirt, v);
  }

  lemma FaultKeepsIsolation(st: State, d: nat, dirVirt: u32, v: u32)
    requires Ready(st, d, dirVirt) && Isolated(st, d) && Servable(st, d, v)
    ensures Ready(Fault(st, d, dirVirt, v), d, dirVirt) && Isolated(Fault(st, d, dirVirt, v), d)
  {
    var p, st' := Frames.Least(st.free), Fault(st, d, dirVirt, v);
    FaultMeans(st, d, dirVirt, v);
    forall w: u32, f: nat | MappedTo(st'.mem, d, w, f)
      ensures f !in st'.free
      ensures if PageOf(w) == PageOf(v) then f == p else MappedTo(st.mem, d, w, f) && f != p
      ensures DirIndex(w) != KERNEL ==> Unused(st'.mem, d, f)
    {
      MappedAfterFault(st, d, dirVirt, v, w, f);
    }
  }

  /** `st'` is reached from `st` by serving faults at the addresses `vs`. */
  ghost predicate FaultRun(st: State, d: nat, dirVirt: u32, vs: seq<u32>, st': State)
    decreases |vs|
  {
    if vs == [] then st == st'
    else Ready(st, d, dirVirt) && Servable(st, d, vs[0])
         && FaultRun(Fault(st, d, dirVirt, vs[0]), d, dirVirt, vs[1..], st')
  }

  /** Over any run of page faults pages never come to share a frame, frames in use are never free, tables
      never show through a user page, and what was mapped stays mapped as it was. */
  lemma {:induction false} FaultRunKeepsIsolation(st: State, d: nat, dirVirt: u32, vs: seq<u32>, st': State)
    requires Ready(st, d, dirVirt) && Isolated(st, d) && FaultRun(st, d, dirVirt, vs, st')
    ensures Ready(st', d, dirVirt) && Isolated(st', d) && st'.free <= st.free
    ensures forall v: u32, f: nat :: MappedTo(st.mem, d, v, f) ==> MappedTo(st'.mem, d, v, f)
    decreases |vs|
  {
    if vs == [] {
    } else {
      var st1 := Fault(st, d, dirVirt, vs[0]);
      FaultKeepsIsolation(st, d, dirVirt, vs[0]);
      FaultMeans(st, d, dirVirt, vs[0]);
      forall v: u32, f: nat | MappedTo(st.mem, d, v, f)
        ensures MappedTo(st1.mem, d, v, f)
      {
        PageIsIndices(v, vs[0]);
      }
      FaultRunKeepsIsolation(st1, d, dirVirt, vs[1..], st');
    }
  }

  // ---------------------------------------------------------------- the switch from 4 MB to 4 KB pages

  /** The boot directory once its identity entry was removed: one 4 MB page at entry KERNEL. */
  ghost predicate BootDirectory(m: Mem, b: nat) {
    WordAt(m, b, KERNEL) == 0x83 && forall i: nat :: i < 1024 && i != KERNEL ==> WordAt(m, b, i) == 0
  }

  function DirectoryWord(d: nat, t: nat, i: nat): u32
    requires d < 1024 && t < 1024
  {
    if i == KERNEL then EntryFor(t) else if i == SELF then EntryFor(d) else 2
  }

  /** What `paging_initialize` writes: directory in frame `d`, kernel table in frame `t`. */
  ghost predicate Initialized(m: Mem, d: nat, t: nat) {
    && |m| <= 0x4000_0000 && d < FrameCount(m) && t < FrameCount(m) && d != t && d < 1024 && t < 1024
    && (forall i: nat :: i < 1024 ==> WordAt(m, d, i) == DirectoryWord(d, t, i))
    && (forall i: nat :: i < 1024 ==> WordAt(m, t, i) == i * PAGE + 3)
  }

  /** Outside the recursive window the new tables translate every address as the boot directory did. */
  lemma SwitchKeepsTranslation(m: Mem, b: nat, m': Mem, d: nat, t: nat, v: u32)
    requires BootDirectory(m, b) && Initialized(m', d, t) && DirIndex(v) != SELF
    ensures Walk(m', d, v) == WalkPse(m, b, v)
    ensures Walk(m', d, v) == if DirIndex(v) == KERNEL then Some(v % SPAN) else None
  {
    PageIsIndices(v, v);
    var i, j := DirIndex(v), TableIndex(v);
    assert WordAt(m', d, i) == if i == KERNEL then EntryFor(t) else 2;
    assert WordAt(m, b, i) == if i == KERNEL then 0x83 else 0;
    if i == KERNEL {
      assert WordAt(m', t, j) == j * PAGE + 3;
      TableEntry(j);
      assert Walk(m', d, v) == Some(j * PAGE + v % PAGE);
      assert v % SPAN == j * PAGE + v % PAGE;
    }
  }

  lemma TableEntry(j: nat)
    requires j < 1024
    ensures FrameOf(j * PAGE + 3) == j && Present(j * PAGE + 3)
  {
    assert EntryFor(j) == j * PAGE + 3;
  }

  /** The only table besides the directory itself is the kernel's. */
  lemma SwitchTables(m: Mem, d: nat, t: nat)
    requires Initialized(m, d, t)
    ensures forall i :: 0 <= i < SELF ==> (HasTable(m, d, i) <==> i == KERNEL)
    ensures Table(m, d, KERNEL) == t && HasTable(m, d, SELF) && Table(m, d, SELF) == d
  {
    assert WordAt(m, d, KERNEL) == DirectoryWord(d, t, KERNEL) && WordAt(m, d, SELF) == DirectoryWord(d, t, SELF);
    forall i | 0 <= i < SELF
      ensures HasTable(m, d, i) <==> i == KERNEL
    {
      assert WordAt(m, d, i) == DirectoryWord(d, t, i);
    }
  }

  lemma SwitchShowsDirectory(m: Mem, d: nat, t: nat, dirVirt: u32)
    requires Initialized(m, d, t) && dirVirt == KERNEL_BASE + d * PAGE
    ensures dirVirt % PAGE == 0 && DirIndex(dirVirt) == KERNEL && TableIndex(dirVirt) == d
    ensures Walk(m, d, dirVirt) == Some(d * PAGE)
  {
    PageIsIndices(dirVirt, dirVirt);
    assert WordAt(m, d, KERNEL) == EntryFor(t);
    assert WordAt(m, t, d) == d * PAGE + 3;
    TableEntry(d);
  }

  lemma SwitchIsSound(m: Mem, d: nat, t: nat, dirVirt: u32)
    requires Initialized(m, d, t) && d != SCRATCH && dirVirt == KERNEL_BASE + d * PAGE
    ensures Sound(m, d, dirVirt)
    ensures forall i :: 0 <= i < SELF && HasTable(m, d, i) ==> i == KERNEL && Table(m, d, i) == t
  {
    SwitchTables(m, d, t);
    SwitchShowsDirectory(m, d, t, dirVirt);
  }

  lemma SwitchMapsKernel(m: Mem, d: nat, t: nat, v: u32, f: nat)
    requires Initialized(m, d, t) && MappedTo(m, d, v, f)
    ensures DirIndex(v) == KERNEL && f == TableIndex(v) && f < 1024
  {
  }

  /** The new directory is sound, and with the boot page's frames reserved nothing is shared: the state in
      which runs of page faults start. */
  lemma SwitchStartsIsolated(m: Mem, d: nat, t: nat, free: set<nat>, dirVirt: u32)
    requires Initialized(m, d, t) && d != SCRATCH && dirVirt == KERNEL_BASE + d * PAGE
    requires forall f :: f in free ==> 1024 <= f < FrameCount(m)
    ensures Ready(State(m, free), d, dirVirt) && Isolated(State(m, free), d)
  {
    SwitchIsSound(m, d, t, dirVirt);
    forall v: u32, f: nat | MappedTo(m, d, v, f)
      ensures DirIndex(v) == KERNEL && f == TableIndex(v) && f < 1024
    {
      SwitchMapsKernel(m, d, t, v, f);
    }
    forall v: u32, w: u32, f: nat | MappedTo(m, d, v, f) && MappedTo(m, d, w, f)
      ensures PageOf(v) == PageOf(w)
    {
      PageIsIndices(v, w);
    }
  }

  lemma SwitchKeepsEveryTranslation(m: Mem, b: nat, m': Mem, d: nat, t: nat)
    requires BootDirectory(m, b) && Initialized(m', d, t)
    ensures forall v: u32 :: DirIndex(v) != SELF ==> Walk(m', d, v) == WalkPse(m, b, v)
  {
    forall v: u32 | DirIndex(v) != SELF
      ensures Walk(m', d, v) == WalkPse(m, b, v)
    {
      SwitchKeepsTranslation(m, b, m', d, t, v);
    }
  }

  /** Every present entry maps 4 MB, from a multiple of that on. */
  ghost predicate LargePages(pd: seq<u32>) {
    forall i :: 0 <= i < |pd| && Present(pd[i]) ==> pd[i] / 0x80 % 2 == 1 && pd[i] / PAGE % 1024 == 0
  }

  /** Some address is translated to frame `f`. */
  ghost predicate MapsFrame(m: Mem, b: nat, f: nat) {
    exists v: u32 :: WalkPse(m, b, v).Some? && WalkPse(m, b, v).value / PAGE == f
  }

  /** For any directory of 4 MB pages the frames reserved are exactly those it maps. */
  lemma ReservedIsMapped(m: Mem, b: nat, pd: seq<u32>, f: nat)
    requires |pd| == 1024 && LargePages(pd) && forall i :: 0 <= i < 1024 ==> pd[i] == WordAt(m, b, i)
    ensures Frames.InBootPage(pd, 1024, f) <==> MapsFrame(m, b, f)
  {
    if i: nat :| i < 1024 && Frames.InPage(pd[i], f) {
      PageIsMapped(m, b, pd, i, f);
    }
    if v: u32 :| WalkPse(m, b, v).Some? && WalkPse(m, b, v).value / PAGE == f {
      var i, k := DirIndex(v), v % SPAN / PAGE;
      PageIsIndices(v, v);
      assert pd[i] == WordAt(m, b, i) && Present(pd[i]);
      LargePage(pd[i], k, v % SPAN);
      assert Frames.InPage(pd[i], f);
    }
  }

  lemma PageIsMapped(m: Mem, b: nat, pd: seq<u32>, i: nat, f: nat)
    requires |pd| == 1024 && LargePages(pd) && i < 1024 && pd[i] == WordAt(m, b, i) && Frames.InPage(pd[i], f)
    ensures MapsFrame(m, b, f)
  {
    var k: nat :| k < 1024 && Frames.FrameAt(pd[i] - pd[i] % PAGE, k) == f;
    LargePage(pd[i], k, k * PAGE);
    var v: u32 := i * SPAN + k * PAGE;
    assert DirIndex(v) == i && v % SPAN == k * PAGE;
    assert WalkPse(m, b, v).value / PAGE == f;
  }

  lemma LargePage(pde: u32, k: nat, o: nat)
    requires pde / PAGE % 1024 == 0 && k < 1024 && k * PAGE <= o < (k + 1) * PAGE
    ensures Frames.FrameAt(pde - pde % PAGE, k) == pde / SPAN * 1024 + k
    ensures (pde / SPAN * SPAN + o) / PAGE == pde / SPAN * 1024 + k
  {
    assert pde - pde % PAGE == pde / SPAN * SPAN;
  }

  /** The boot directory's one page keeps the frame allocator off the first 4 MB, where the new tables go. */
  lemma BootPageIsReserved(m: Mem, b: nat, pd: seq<u32>, f: nat)
    requires BootDirectory(m, b) && |pd| == 1024 && forall i :: 0 <= i < 1024 ==> pd[i] == WordAt(m, b, i)
    ensures Frames.InBootPage(pd, 1024, f) <==> f < 1024
  {
    assert pd[KERNEL] == 0x83;
    assert Frames.InBootPage(pd, 1024, f) <==> Frames.InPage(pd[KERNEL], f);
    Frames.VisitedUnwrapped(0, 1024, f);
  }
}
