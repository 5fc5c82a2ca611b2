/** What `map_page` writes word by word, and the access rights that gives a page. */
module AccessRights {
  import opened Word
  import opened PageModel
  import opened FaultModel
  import Frames = FrameModel

  // ---------------------------------------------------------------- rights

  /** Bits 1 and 2 of a directory or table entry. */
  datatype Rights = Rights(writable: bool, user: bool)

  function Granted(w: u32): Rights { Rights(w / 2 % 2 == 1, w / 4 % 2 == 1) }

  function Both(a: Rights, b: Rights): Rights { Rights(a.writable && b.writable, a.user && b.user) }

  const KERNEL_RIGHTS := Rights(true, false)

  datatype Entries = Entries(pde: u32, pte: u32)

  /** The entries the walk for `v` goes through. */
  function Path(m: Mem, d: nat, v: u32): Option<Entries> {
    var pde := WordAt(m, d, DirIndex(v));
    if Present(pde) then Some(Entries(pde, WordAt(m, FrameOf(pde), TableIndex(v)))) else None
  }

  /** An access is allowed what both entries allow (Intel SDM Volume 3A, section 4.6). */
  function RightsOf(m: Mem, d: nat, v: u32): Option<Rights> {
    match Path(m, d, v)
    case None => None
    case Some(Entries(pde, pte)) => if Present(pte) then Some(Both(Granted(pde), Granted(pte))) else None
  }

  /** A 4 MB page has the rights of its directory entry. */
  function RightsOfPse(m: Mem, d: nat, v: u32): Option<Rights> {
    var pde := WordAt(m, d, DirIndex(v));
    if Present(pde) && pde / 0x80 % 2 == 1 then Some(Granted(pde)) else RightsOf(m, d, v)
  }

  lemma WalkedHasRights(m: Mem, d: nat, v: u32)
    ensures Walk(m, d, v).Some? <==> RightsOf(m, d, v).Some?
  {
  }

  // ---------------------------------------------------------------- all memory after map_page and unmap_page

  lemma MapInWords(m: Mem, d: nat, dirVirt: u32, virt: u32, phys: u32, g: nat, j: nat)
    requires Sound(m, d, dirVirt) && Mappable(dirVirt, virt) && HasTable(m, d, DirIndex(virt)) && j < 1024
    ensures Table(m, d, DirIndex(virt)) < FrameCount(m)
    ensures var m', i := MapIn(m, d, virt, phys), DirIndex(virt);
            && |m'| == |m| && WordAt(m', d, i) == WordAt(m, d, i)
            && WordAt(m', g, j) == if g == Table(m, d, i) && j == TableIndex(virt)
                                   then phys / PAGE * PAGE + WordAt(m, d, i) % PAGE else WordAt(m, g, j)
  {
    var i := DirIndex(virt);
    PageIsIndices(virt, virt);
    SameTable(m, d, dirVirt, i, i);
    EntryWord(phys, WordAt(m, d, i));
    var w: u32 := phys - phys % PAGE + WordAt(m, d, i) % PAGE;
    WordWrite(m, Table(m, d, i), TableIndex(virt), w, g, j);
    WordWrite(m, Table(m, d, i), TableIndex(virt), w, d, i);
  }

  /** `map_page` writes the frame with the low twelve bits of the directory entry into one word of the table. If
      it creates the table in frame `t`, that is filled with 2 and entered with 3; no other word changes. */
  lemma MapWords(st: State, d: nat, dirVirt: u32, virt: u32, phys: u32, g: nat, j: nat)
    requires Ready(st, d, dirVirt) && Mappable(dirVirt, virt) && CanMap(st, d, virt, phys) && j < 1024
    ensures var m, m' := st.mem, Map(st, d, dirVirt, virt, phys).mem;
            var i, t := virt / SPAN, WordAt(m', d, virt / SPAN) / PAGE;
            && |m'| == |m| && (WordAt(m, d, i) % 2 == 1 ==> t == WordAt(m, d, i) / PAGE)
            && WordAt(m', g, j) ==
                 if g == t && j == virt / PAGE % 1024 then phys / PAGE * PAGE + WordAt(m', d, i) % PAGE
                 else if WordAt(m, d, i) % 2 == 1 then WordAt(m, g, j)
                 else if g == t then 2
                 else if g == d && j == i then t * PAGE + 3
                 else WordAt(m, g, j)
  {
    var i := DirIndex(virt);
    PageIsIndices(virt, virt);
    PrepareMeans(st, d, dirVirt, virt, phys);
    var st1 := Prepare(st, d, dirVirt, virt, phys);
    MapInWords(st1.mem, d, dirVirt, virt, phys, g, j);
    if !HasTable(st.mem, d, i) {
      var t := TableFrame(st.free, phys);
      assert Unused(st.mem, d, t);
      WithTableWords(st.mem, d, i, t, g, j);
      WithTableWords(st.mem, d, i, t, d, i);
    }
  }

  /** `unmap_page` clears one word of the table, if there is one. */
  lemma UnmapWords(m: Mem, d: nat, dirVirt: u32, virt: u32, g: nat, j: nat)
    requires Sound(m, d, dirVirt) && Mappable(dirVirt, virt) && j < 1024
    ensures HasTable(m, d, DirIndex(virt)) ==> Table(m, d, DirIndex(virt)) < FrameCount(m)
    ensures var m' := UnmapPage(m, d, virt);
            && |m'| == |m|
            && WordAt(m', g, j) ==
                 if WordAt(m, d, virt / SPAN) % 2 == 1 && g == WordAt(m, d, virt / SPAN) / PAGE
                    && j == virt / PAGE % 1024 then 0
                 else WordAt(m, g, j)
  {
    var i := DirIndex(virt);
    PageIsIndices(virt, virt);
    if HasTable(m, d, i) {
      SameTable(m, d, dirVirt, i, i);
      WordWrite(m, Table(m, d, i), TableIndex(virt), 0, g, j);
    }
  }

  // ---------------------------------------------------------------- the rights of pages

  /** A page gets the rights of its directory entry, those of the kernel if its table is new; no other page
      outside the recursive window changes its rights. */
  lemma MapGivesRights(st: State, d: nat, dirVirt: u32, virt: u32, phys: u32, v: u32)
    requires Ready(st, d, dirVirt) && Mappable(dirVirt, virt) && CanMap(st, d, virt, phys) && DirIndex(v) != SELF
    ensures var m, m' := st.mem, Map(st, d, dirVirt, virt, phys).mem;
            RightsOf(m', d, v) ==
              if PageOf(v) != PageOf(virt) then RightsOf(m, d, v)
              else Some(if HasTable(m, d, DirIndex(virt)) then Granted(WordAt(m, d, DirIndex(virt))) else KERNEL_RIGHTS)
  {
    var m, m' := st.mem, Map(st, d, dirVirt, virt, phys).mem;
    PageIsIndices(v, virt);
    if PageOf(v) == PageOf(virt) {
      MapPathHere(st, d, dirVirt, virt, phys, v);
      MapEntryRights(st, d, dirVirt, virt, phys);
      LowBits(phys / PAGE, WordAt(m', d, DirIndex(virt)));
    } else {
      MapPathElsewhere(st, d, dirVirt, virt, phys, v);
    }
  }

  lemma LowBits(q: nat, pde: u32)
    requires q * PAGE + pde % PAGE < WORD
    ensures Granted(q * PAGE + pde % PAGE) == Granted(pde) && Present(q * PAGE + pde % PAGE) == Present(pde)
  {
    var low := pde % PAGE;
    assert pde == pde / PAGE * PAGE + low;
    SameLowBits(q, low);
    SameLowBits(pde / PAGE, low);
  }

  lemma SameLowBits(q: nat, low: nat)
    requires low < PAGE
    ensures (q * PAGE + low) % 2 == low % 2 && (q * PAGE + low) / 2 % 2 == low / 2 % 2
    ensures (q * PAGE + low) / 4 % 2 == low / 4 % 2
  {
    LowBit(q * 2048, low);
    LowBit(q * 1024, low / 2);
    LowBit(q * 512, low / 4);
    assert q * PAGE == 2 * (q * 2048) == 4 * (2 * (q * 512));
    assert (q * PAGE + low) / 2 == 2 * (q * 1024) + low / 2;
    assert (q * PAGE + low) / 4 == 2 * (q * 512) + low / 4;
  }

  lemma LowBit(k: nat, r: nat)
    ensures (2 * k + r) % 2 == r % 2
  {
  }

  /** The directory after `map_page`. */
  lemma MapDirectory(st: State, d: nat, dirVirt: u32, virt: u32, phys: u32, k: nat)
    requires Ready(st, d, dirVirt) && Mappable(dirVirt, virt) && CanMap(st, d, virt, phys) && k < 1024
    ensures var m, m', i := st.mem, Map(st, d, dirVirt, virt, phys).mem, DirIndex(virt);
            && Sound(m', d, dirVirt) && HasTable(m', d, i) && Table(m', d, i) != d
            && (if k != i || HasTable(m, d, i) then WordAt(m', d, k) == WordAt(m, d, k)
                else WordAt(m', d, k) % PAGE == 3)
  {
    var i := DirIndex(virt);
    PageIsIndices(virt, virt);
    PrepareMeans(st, d, dirVirt, virt, phys);
    var st1 := Prepare(st, d, dirVirt, virt, phys);
    MapInMeans(st1.mem, d, dirVirt, virt, phys);
    SameTable(st1.mem, d, dirVirt, i, i);
    if !HasTable(st.mem, d, i) {
      assert Unused(st.mem, d, TableFrame(st.free, phys));
      WithTableWords(st.mem, d, i, TableFrame(st.free, phys), d, k);
    }
  }

  /** After `map_page` the entry of the page mapped holds the frame and the low bits of the directory entry. */
  lemma MapPathHere(st: State, d: nat, dirVirt: u32, virt: u32, phys: u32, v: u32)
    requires Ready(st, d, dirVirt) && Mappable(dirVirt, virt) && CanMap(st, d, virt, phys)
    requires PageOf(v) == PageOf(virt)
    ensures var m' := Map(st, d, dirVirt, virt, phys).mem;
            var pde := WordAt(m', d, DirIndex(virt));
            && phys / PAGE * PAGE + pde % PAGE < WORD && Present(pde)
            && Path(m', d, v) == Some(Entries(pde, phys / PAGE * PAGE + pde % PAGE))
  {
    var m' := Map(st, d, dirVirt, virt, phys).mem;
    PageIsIndices(v, virt);
    MapDirectory(st, d, dirVirt, virt, phys, DirIndex(virt));
    MapWords(st, d, dirVirt, virt, phys, Table(m', d, DirIndex(virt)), TableIndex(virt));
  }

  /** Every other entry is what it was, or, in a new table, absent. */
  lemma MapPathElsewhere(st: State, d: nat, dirVirt: u32, virt: u32, phys: u32, v: u32)
    requires Ready(st, d, dirVirt) && Mappable(dirVirt, virt) && CanMap(st, d, virt, phys)
    requires DirIndex(v) != SELF && PageOf(v) != PageOf(virt)
    ensures var m, m' := st.mem, Map(st, d, dirVirt, virt, phys).mem;
            if DirIndex(v) == DirIndex(virt) && !HasTable(m, d, DirIndex(v))
            then Path(m', d, v) == Some(Entries(WordAt(m', d, DirIndex(v)), 2))
            else Path(m', d, v) == Path(m, d, v)
  {
    var m' := Map(st, d, dirVirt, virt, phys).mem;
    var i, k := DirIndex(virt), DirIndex(v);
    PageIsIndices(v, virt);
    MapDirectory(st, d, dirVirt, virt, phys, k);
    if HasTable(m', d, k) {
      SameTable(m', d, dirVirt, k, i);
      MapWords(st, d, dirVirt, virt, phys, Table(m', d, k), TableIndex(v));
    }
  }

  lemma MapEntryRights(st: State, d: nat, dirVirt: u32, virt: u32, phys: u32)
    requires Ready(st, d, dirVirt) && Mappable(dirVirt, virt) && CanMap(st, d, virt, phys)
    ensures var m, m' := st.mem, Map(st, d, dirVirt, virt, phys).mem;
            Granted(WordAt(m', d, DirIndex(virt))) ==
              if HasTable(m, d, DirIndex(virt)) then Granted(WordAt(m, d, DirIndex(virt))) else KERNEL_RIGHTS
  {
    var m' := Map(st, d, dirVirt, virt, phys).mem;
    PageIsIndices(virt, virt);
    MapDirectory(st, d, dirVirt, virt, phys, DirIndex(virt));
    if !HasTable(st.mem, d, DirIndex(virt)) {
      ThreeIsKernel(WordAt(m', d, DirIndex(virt)));
    }
  }

  lemma ThreeIsKernel(w: u32)
    requires w % PAGE == 3
    ensures Granted(w) == KERNEL_RIGHTS
  {
    assert w == w / PAGE * PAGE + 3;
    SameLowBits(w / PAGE, 3);
  }
  /** `unmap_page` takes the rights of its page away and changes those of no other outside the window. */
  lemma UnmapTakesRights(m: Mem, d: nat, dirVirt: u32, virt: u32, v: u32)
    requires Sound(m, d, dirVirt) && Mappable(dirVirt, virt) && DirIndex(v) != SELF
    ensures HasTable(m, d, DirIndex(virt)) ==> Table(m, d, DirIndex(virt)) < FrameCount(m)
    ensures RightsOf(UnmapPage(m, d, virt), d, v) == if PageOf(v) == PageOf(virt) then None else RightsOf(m, d, v)
  {
    PageIsIndices(v, virt);
    var k := DirIndex(v);
    if HasTable(m, d, DirIndex(virt)) {
      SameTable(m, d, dirVirt, DirIndex(virt), DirIndex(virt));
    }
    UnmapWords(m, d, dirVirt, virt, d, k);
    if HasTable(m, d, k) {
      UnmapWords(m, d, dirVirt, virt, Table(m, d, k), TableIndex(v));
      if HasTable(m, d, DirIndex(virt)) {
        SameTable(m, d, dirVirt, k, DirIndex(virt));
      }
    }
  }

  // ---------------------------------------------------------------- over runs of page faults

  /** Outside the recursive window all tables and all pages are the kernel's to read and write, and nobody
      else's. */
  ghost predicate KernelAccess(m: Mem, d: nat) {
    && (forall i :: 0 <= i < SELF && HasTable(m, d, i) ==> Granted(WordAt(m, d, i)) == KERNEL_RIGHTS)
    && (forall v: u32 :: DirIndex(v) != SELF && RightsOf(m, d, v).Some? ==> RightsOf(m, d, v) == Some(KERNEL_RIGHTS))
  }

  lemma MapKeepsAccess(st: State, d: nat, dirVirt: u32, virt: u32, phys: u32)
    requires Ready(st, d, dirVirt) && Mappable(dirVirt, virt) && CanMap(st, d, virt, phys)
    requires KernelAccess(st.mem, d)
    ensures var m, m' := st.mem, Map(st, d, dirVirt, virt, phys).mem;
            && KernelAccess(m', d) && RightsOf(m', d, virt) == Some(KERNEL_RIGHTS)
            && forall v: u32 :: DirIndex(v) != SELF && RightsOf(m, d, v).Some? ==>
                 RightsOf(m', d, v) == RightsOf(m, d, v)
  {
    var m, m' := st.mem, Map(st, d, dirVirt, virt, phys).mem;
    PageIsIndices(virt, virt);
    forall i | 0 <= i < SELF && HasTable(m', d, i)
      ensures Granted(WordAt(m', d, i)) == KERNEL_RIGHTS
    {
      MapDirectory(st, d, dirVirt, virt, phys, i);
      MapEntryRights(st, d, dirVirt, virt, phys);
    }
    forall v: u32 | DirIndex(v) != SELF
      ensures RightsOf(m', d, v) == if PageOf(v) == PageOf(virt) then Some(KERNEL_RIGHTS) else RightsOf(m, d, v)
    {
      MapGivesRights(st, d, dirVirt, virt, phys, v);
    }
  }

  /** A served fault leaves its page writable and changes the rights of no mapped page. */
  lemma FaultKeepsAccess(st: State, d: nat, dirVirt: u32, v: u32)
    requires Ready(st, d, dirVirt) && Servable(st, d, v) && KernelAccess(st.mem, d)
    ensures var m, m' := st.mem, Fault(st, d, dirVirt, v).mem;
            && KernelAccess(m', d) && RightsOf(m', d, v) == Some(KERNEL_RIGHTS)
            && forall w: u32 :: DirIndex(w) != SELF && RightsOf(m, d, w).Some? ==>
                 RightsOf(m', d, w) == RightsOf(m, d, w)
  {
    ServableIsMappable(st, d, dirVirt, v);
    var p := Frames.Least(st.free);
    MapKeepsAccess(State(st.mem, st.free - {p}), d, dirVirt, v, p * PAGE);
  }

  /** After any run of page faults every page served and every page mapped before can be read and written. */
  lemma {:induction false} FaultRunKeepsAccess(st: State, d: nat, dirVirt: u32, vs: seq<u32>, st': State)
    requires Ready(st, d, dirVirt) && KernelAccess(st.mem, d) && FaultRun(st, d, dirVirt, vs, st')
    ensures KernelAccess(st'.mem, d)
    ensures forall i :: 0 <= i < |vs| ==> RightsOf(st'.mem, d, vs[i]) == Some(KERNEL_RIGHTS)
    ensures forall w: u32 :: DirIndex(w) != SELF && RightsOf(st.mem, d, w).Some? ==>
              RightsOf(st'.mem, d, w) == RightsOf(st.mem, d, w)
    decreases |vs|
  {
    if vs == [] {
    } else {
      var st1 := Fault(st, d, dirVirt, vs[0]);
      FaultMeans(st, d, dirVirt, vs[0]);
      FaultKeepsAccess(st, d, dirVirt, vs[0]);
      FaultRunKeepsAccess(st1, d, dirVirt, vs[1..], st');
      forall i | 0 <= i < |vs|
        ensures RightsOf(st'.mem, d, vs[i]) == Some(KERNEL_RIGHTS)
      {
        assert i > 0 ==> vs[i] == vs[1..][i - 1];
      }
    }
  }

  /** Outside the recursive window the new tables give every page the rights the boot directory gave it. */
  lemma SwitchKeepsRights(m: Mem, b: nat, m': Mem, d: nat, t: nat, v: u32)
    requires BootDirectory(m, b) && Initialized(m', d, t) && DirIndex(v) != SELF
    ensures RightsOf(m', d, v) == RightsOfPse(m, b, v)
    ensures RightsOf(m', d, v) == if DirIndex(v) == KERNEL then Some(KERNEL_RIGHTS) else None
  {
    PageIsIndices(v, v);
    var i, j := DirIndex(v), TableIndex(v);
    assert WordAt(m', d, i) == DirectoryWord(d, t, i);
    assert WordAt(m, b, i) == if i == KERNEL then 0x83 else 0;
    if i == KERNEL {
      assert WordAt(m', d, i) == t * PAGE + 3 && WordAt(m', t, j) == j * PAGE + 3;
      TableEntry(t);
      SameLowBits(t, 3);
      SameLowBits(j, 3);
    }
  }

  lemma SwitchStartsAccess(m: Mem, b: nat, m': Mem, d: nat, t: nat)
    requires BootDirectory(m, b) && Initialized(m', d, t)
    ensures KernelAccess(m', d)
  {
    SwitchTables(m', d, t);
    assert WordAt(m', d, KERNEL) == DirectoryWord(d, t, KERNEL);
    SameLowBits(t, 3);
    forall v: u32 | DirIndex(v) != SELF && RightsOf(m', d, v).Some?
      ensures RightsOf(m', d, v) == Some(KERNEL_RIGHTS)
    {
      SwitchKeepsRights(m, b, m', d, t, v);
    }
  }
}
