/** Two-level translation on plain values.

    Physical memory is the sequence of its 32-bit words, 1024 to a frame. `Walk` is the hardware's own walk
    (Intel SDM Volume 3A, section 4.3, 4 KB pages); everything else is stated in terms of it. On words,
    `x & ~0xFFF` is x - x % PAGE, `x >> 22` is x / SPAN, bit 0 is x % 2, and an `|` of numbers with no
    bit in common is their sum. */
module PageModel {
  import opened Word

  type Mem = seq<u32>

  const SELF := 1023               // the directory entry that leads back to the directory
  const KERNEL := 768              // the directory entry of the kernel's table
  const SCRATCH := 10              // the kernel page borrowed while a table is created
  const SCRATCH_ADDR := KERNEL_BASE + SCRATCH * PAGE

  datatype Option<T> = None | Some(value: T)

  function DirIndex(v: int): int { v / SPAN }

  function TableIndex(v: int): int { v / PAGE % 1024 }

  function PageOf(v: int): int { v / PAGE }

  predicate Present(w: u32) { w % 2 == 1 }

  function FrameOf(w: u32): nat { w / PAGE }

  function FrameCount(m: Mem): nat { |m| / 1024 }

  /** Word `i` of frame `f`; memory that is not there reads as zero. */
  function WordAt(m: Mem, f: nat, i: nat): u32 {
    if f * 1024 + i < |m| then m[f * 1024 + i] else 0
  }

  function Write(m: Mem, f: nat, i: nat, w: u32): Mem
    requires f * 1024 + i < |m|
  {
    m[f * 1024 + i := w]
  }

  /** Frame `f` with every word set to `w`. */
  function Fill(m: Mem, f: nat, w: u32): Mem
    requires f * 1024 + 1024 <= |m|
  {
    m[..f * 1024] + seq(1024, _ => w) + m[f * 1024 + 1024..]
  }

  lemma WordWrite(m: Mem, f: nat, i: nat, w: u32, g: nat, j: nat)
    requires f * 1024 + i < |m| && i < 1024 && j < 1024
    ensures |Write(m, f, i, w)| == |m|
    ensures WordAt(Write(m, f, i, w), g, j) == if g == f && j == i then w else WordAt(m, g, j)
  {
  }

  lemma WordFill(m: Mem, f: nat, w: u32, g: nat, j: nat)
    requires f * 1024 + 1024 <= |m| && j < 1024
    ensures |Fill(m, f, w)| == |m|
    ensures WordAt(Fill(m, f, w), g, j) == if g == f then w else WordAt(m, g, j)
  {
  }

  // ---------------------------------------------------------------- translation

  /** The hardware walk through the directory in frame `d`. */
  function Walk(m: Mem, d: nat, v: u32): Option<nat> {
    var pde := WordAt(m, d, DirIndex(v));
    var pte := WordAt(m, FrameOf(pde), TableIndex(v));
    if Present(pde) && Present(pte) then Some(FrameOf(pte) * PAGE + v % PAGE) else None
  }

  /** The same with page-size extensions on: a present entry with bit 7 set maps 4 MB by itself. */
  function WalkPse(m: Mem, d: nat, v: u32): Option<nat> {
    var pde := WordAt(m, d, DirIndex(v));
    if Present(pde) && pde / 0x80 % 2 == 1 then Some(pde / SPAN * SPAN + v % SPAN) else Walk(m, d, v)
  }

  function Translate(m: Mem, d: nat, pse: bool, v: u32): Option<nat> {
    if pse then WalkPse(m, d, v) else Walk(m, d, v)
  }

  ghost predicate SameOutside(m: Mem, m': Mem, f: nat) {
    |m'| == |m| && forall g: nat, j: nat :: g != f && j < 1024 ==> WordAt(m', g, j) == WordAt(m, g, j)
  }

  /** At most the frames `d` and `t` differ. */
  ghost predicate SameBut(m: Mem, m': Mem, d: nat, t: nat) {
    |m'| == |m| && forall g: nat, j: nat :: g != d && g != t && j < 1024 ==> WordAt(m', g, j) == WordAt(m, g, j)
  }

  /** Word `k` of the page at `virt` is word `k` of frame `f`. */
  predicate ShowsWord(m: Mem, d: nat, pse: bool, virt: u32, f: nat, k: nat) {
    virt + 4 * k < WORD && Translate(m, d, pse, virt + 4 * k) == Some(f * PAGE + 4 * k)
  }

  /** The page at `virt` shows frame `f`, and goes on doing so whatever is written into that frame. */
  ghost predicate WindowOnto(m: Mem, d: nat, pse: bool, virt: u32, f: nat) {
    && f < FrameCount(m) && virt % PAGE == 0
    && forall m': Mem, k: nat :: SameOutside(m, m', f) && k < 1024 ==> ShowsWord(m', d, pse, virt, f, k)
  }

  /** Before the switch the kernel's 4 MB are physical memory from 0 on. */
  lemma BootWindow(m: Mem, b: nat, f: nat, virt: u32)
    requires WordAt(m, b, KERNEL) == 0x83 && f != b && f < 1024 && f < FrameCount(m)
    requires virt == KERNEL_BASE + f * PAGE
    ensures WindowOnto(m, b, true, virt, f)
  {
  }

  /** With the kernel's page SCRATCH pointed at an unused frame, that frame appears at SCRATCH_ADDR. */
  lemma ScratchWindow(m: Mem, d: nat, dirVirt: u32, t: nat)
    requires Sound(m, d, dirVirt) && Unused(m, d, t)
    requires Present(WordAt(m, Table(m, d, KERNEL), SCRATCH)) && Table(m, Table(m, d, KERNEL), SCRATCH) == t
    ensures WindowOnto(m, d, false, SCRATCH_ADDR, t)
  {
    forall m': Mem, k: nat | SameOutside(m, m', t) && k < 1024
      ensures ShowsWord(m', d, false, SCRATCH_ADDR, t, k)
    {
      WithinPage(SCRATCH_ADDR, 4 * k);
      assert WordAt(m', d, KERNEL) == WordAt(m, d, KERNEL);
      assert WordAt(m', Table(m, d, KERNEL), SCRATCH) == WordAt(m, Table(m, d, KERNEL), SCRATCH);
    }
  }

  // ---------------------------------------------------------------- what the kernel keeps

  predicate HasTable(m: Mem, d: nat, i: nat) {
    Present(WordAt(m, d, i))
  }

  function Table(m: Mem, d: nat, i: nat): nat {
    FrameOf(WordAt(m, d, i))
  }

  /** Entry `i`, if present, names a table frame inside memory that is not the directory. */
  predicate TableOk(m: Mem, d: nat, i: nat) {
    HasTable(m, d, i) ==> Table(m, d, i) < FrameCount(m) && Table(m, d, i) != d
  }

  predicate TablesDiffer(m: Mem, d: nat, i: nat, j: nat) {
    HasTable(m, d, i) && HasTable(m, d, j) ==> Table(m, d, i) != Table(m, d, j)
  }

  /** A directory in frame `d` that leads back to itself, whose tables are distinct frames, and that the
      kernel reaches at virtual address `dirVirt`, through a page of its own table other than SCRATCH. */
  ghost predicate Sound(m: Mem, d: nat, dirVirt: u32) {
    && |m| <= 0x4000_0000 && d < FrameCount(m)
    && HasTable(m, d, SELF) && Table(m, d, SELF) == d
    && HasTable(m, d, KERNEL)
    && (forall i :: 0 <= i < SELF ==> TableOk(m, d, i))
    && (forall i, j :: 0 <= i < j < SELF ==> TablesDiffer(m, d, i, j))
    && dirVirt % PAGE == 0 && DirIndex(dirVirt) == KERNEL && TableIndex(dirVirt) != SCRATCH
    && Walk(m, d, dirVirt) == Some(d * PAGE)
  }

  /** Frame `t` is in memory, is not the directory and is not a table. */
  ghost predicate Unused(m: Mem, d: nat, t: nat) {
    t < FrameCount(m) && t != d && forall i :: 0 <= i < SELF && HasTable(m, d, i) ==> Table(m, d, i) != t
  }

  lemma SameTable(m: Mem, d: nat, dirVirt: u32, i: nat, j: nat)
    requires Sound(m, d, dirVirt) && i < SELF && j < SELF && HasTable(m, d, i) && HasTable(m, d, j)
    ensures Table(m, d, i) == Table(m, d, j) ==> i == j
    ensures Table(m, d, i) < FrameCount(m) && Table(m, d, i) != d
  {
    assert TableOk(m, d, i);
    assert i < j ==> TablesDiffer(m, d, i, j);
    assert j < i ==> TablesDiffer(m, d, j, i);
  }

  /** The directory's words appear at `dirVirt`. */
  lemma DirectoryReached(m: Mem, d: nat, dirVirt: u32, i: nat)
    requires Sound(m, d, dirVirt) && i < 1024
    ensures dirVirt + 4 * i < WORD && Walk(m, d, dirVirt + 4 * i) == Some(d * PAGE + 4 * i)
  {
    WithinPage(dirVirt, 4 * i);
    WithinPage(dirVirt, 0);
  }

  lemma WithinPage(v: u32, o: nat)
    requires v % PAGE == 0 && o < PAGE
    ensures v + o < WORD && DirIndex(v + o) == DirIndex(v) && TableIndex(v + o) == TableIndex(v) && (v + o) % PAGE == o
  {
  }

  /** Through the self-map, word `j` of the table named by entry `i` appears at WINDOW + 0x1000*i + 4*j. */
  lemma TableReached(m: Mem, d: nat, dirVirt: u32, i: nat, j: nat)
    requires Sound(m, d, dirVirt) && i < 1024 && j < 1024 && HasTable(m, d, i)
    ensures WINDOW + PAGE * i + 4 * j < WORD
    ensures Walk(m, d, WINDOW + PAGE * i + 4 * j) == Some(Table(m, d, i) * PAGE + 4 * j)
  {
    WithinPage(WINDOW + PAGE * i, 4 * j);
    assert DirIndex(WINDOW + PAGE * i) == SELF && TableIndex(WINDOW + PAGE * i) == i;
  }

  // ---------------------------------------------------------------- writes and what they change

  lemma SameWords(a: Mem, b: Mem)
    requires |a| == |b|
    requires forall g: nat, j: nat :: j < 1024 ==> WordAt(a, g, j) == WordAt(b, g, j)
    ensures a == b
  {
    forall k | 0 <= k < |a|
      ensures a[k] == b[k]
    {
      assert WordAt(a, k / 1024, k % 1024) == WordAt(b, k / 1024, k % 1024);
    }
  }

  /** Soundness depends on the directory's words and on where the directory itself is reached. */
  lemma SoundWithSameDirectory(m: Mem, m': Mem, d: nat, dirVirt: u32)
    requires Sound(m, d, dirVirt) && |m'| == |m|
    requires forall i: nat :: i < 1024 ==> WordAt(m', d, i) == WordAt(m, d, i)
    requires Walk(m', d, dirVirt) == Walk(m, d, dirVirt)
    ensures Sound(m', d, dirVirt)
    ensures forall t :: Unused(m, d, t) ==> Unused(m', d, t)
  {
    forall i | 0 <= i < SELF
      ensures TableOk(m', d, i)
    {
      assert TableOk(m, d, i) && WordAt(m', d, i) == WordAt(m, d, i);
    }
    forall i, j | 0 <= i < j < SELF
      ensures TablesDiffer(m', d, i, j)
    {
      assert TablesDiffer(m, d, i, j) && WordAt(m', d, i) == WordAt(m, d, i) && WordAt(m', d, j) == WordAt(m, d, j);
    }
    forall t | Unused(m, d, t)
      ensures Unused(m', d, t)
    {
      forall i | 0 <= i < SELF && HasTable(m', d, i)
        ensures Table(m', d, i) != t
      {
        assert WordAt(m', d, i) == WordAt(m, d, i);
        assert HasTable(m, d, i) && Table(m, d, i) != t;
      }
    }
  }

  /** Writing one entry of a table changes the translation of that one page and of no other outside the
      recursive window. */
  lemma EntryWritten(m: Mem, d: nat, dirVirt: u32, i: nat, j: nat, w: u32)
    requires Sound(m, d, dirVirt) && i < SELF && j < 1024 && HasTable(m, d, i)
    ensures Table(m, d, i) < FrameCount(m)
    ensures var m' := Write(m, Table(m, d, i), j, w);
            && (forall k: nat :: k < 1024 ==> WordAt(m', d, k) == WordAt(m, d, k))
            && (forall v: u32 :: DirIndex(v) != SELF && !(DirIndex(v) == i && TableIndex(v) == j) ==>
                  Walk(m', d, v) == Walk(m, d, v))
            && (forall v: u32 :: DirIndex(v) == i && TableIndex(v) == j ==>
                  Walk(m', d, v) == if Present(w) then Some(FrameOf(w) * PAGE + v % PAGE) else None)
  {
    SameTable(m, d, dirVirt, i, i);
    var f := Table(m, d, i);
    var m' := Write(m, f, j, w);
    forall k: nat | k < 1024
      ensures WordAt(m', d, k) == WordAt(m, d, k)
    {
      WordWrite(m, f, j, w, d, k);
    }
    forall v: u32 | DirIndex(v) != SELF
      ensures Walk(m', d, v) == if !(DirIndex(v) == i && TableIndex(v) == j) then Walk(m, d, v)
                                else if Present(w) then Some(FrameOf(w) * PAGE + v % PAGE) else None
    {
      var k := DirIndex(v);
      assert WordAt(m', d, k) == WordAt(m, d, k);
      WordWrite(m, f, j, w, Table(m, d, k), TableIndex(v));
      if HasTable(m, d, k) {
        SameTable(m, d, dirVirt, i, k);
      }
    }
  }

  lemma EntryWrittenIsSound(m: Mem, d: nat, dirVirt: u32, i: nat, j: nat, w: u32)
    requires Sound(m, d, dirVirt) && i < SELF && j < 1024 && HasTable(m, d, i)
    requires !(i == KERNEL && j == TableIndex(dirVirt))
    ensures Table(m, d, i) < FrameCount(m) && Sound(Write(m, Table(m, d, i), j, w), d, dirVirt)
    ensures forall t :: Unused(m, d, t) ==> Unused(Write(m, Table(m, d, i), j, w), d, t)
  {
    EntryWritten(m, d, dirVirt, i, j, w);
    SoundWithSameDirectory(m, Write(m, Table(m, d, i), j, w), d, dirVirt);
  }

  /** A directory entry for frame `t`, writable and present. */
  function EntryFor(t: nat): (w: u32)
    requires t < FRAMES
    ensures FrameOf(w) == t && Present(w) && w % PAGE == 3
  {
    t * PAGE + 3
  }

  /** Memory after a table of absent entries was created in frame `t` for directory entry `i`. */
  function WithTable(m: Mem, d: nat, i: nat, t: nat): Mem
    requires |m| <= 0x4000_0000 && t < FrameCount(m) && d < FrameCount(m) && i < 1024
  {
    Write(Fill(m, t, 2), d, i, EntryFor(t))
  }

  lemma WithTableWords(m: Mem, d: nat, i: nat, t: nat, g: nat, j: nat)
    requires |m| <= 0x4000_0000 && t < FrameCount(m) && d < FrameCount(m) && i < 1024 && j < 1024 && t != d
    ensures |WithTable(m, d, i, t)| == |m|
    ensures WordAt(WithTable(m, d, i, t), g, j)
         == if g == d && j == i then EntryFor(t) else if g == t then 2 else WordAt(m, g, j)
  {
  }

  lemma WithTableEntries(m: Mem, d: nat, dirVirt: u32, i: nat, t: nat, k: nat)
    requires Sound(m, d, dirVirt) && i < SELF && !HasTable(m, d, i) && Unused(m, d, t) && k < 1024
    ensures var m' := WithTable(m, d, i, t);
            && HasTable(m', d, i) && Table(m', d, i) == t && WordAt(m', d, i) % PAGE == 3
            && (k != i ==> WordAt(m', d, k) == WordAt(m, d, k))
            && (k < SELF ==> TableOk(m', d, k))
  {
    WithTableWords(m, d, i, t, d, i);
    WithTableWords(m, d, i, t, d, k);
    assert k < SELF ==> TableOk(m, d, k);
  }

  lemma TableCreatedKeepsWalks(m: Mem, d: nat, dirVirt: u32, i: nat, t: nat)
    requires Sound(m, d, dirVirt) && i < SELF && !HasTable(m, d, i) && Unused(m, d, t)
    ensures forall v: u32 :: DirIndex(v) != SELF ==> Walk(WithTable(m, d, i, t), d, v) == Walk(m, d, v)
  {
    var m' := WithTable(m, d, i, t);
    forall v: u32 | DirIndex(v) != SELF
      ensures Walk(m', d, v) == Walk(m, d, v)
    {
      var k := DirIndex(v);
      WithTableWords(m, d, i, t, d, k);
      WithTableWords(m, d, i, t, Table(m', d, k), TableIndex(v));
      assert TableOk(m, d, k);
      assert HasTable(m, d, k) ==> Table(m, d, k) != t;
    }
  }

  /** Creating a table changes no translation outside the recursive window. */
  lemma TableCreated(m: Mem, d: nat, dirVirt: u32, i: nat, t: nat)
    requires Sound(m, d, dirVirt) && i < SELF && !HasTable(m, d, i) && Unused(m, d, t)
    ensures var m' := WithTable(m, d, i, t);
            && Sound(m', d, dirVirt) && HasTable(m', d, i) && Table(m', d, i) == t && WordAt(m', d, i) % PAGE == 3
            && (forall v: u32 :: DirIndex(v) != SELF ==> Walk(m', d, v) == Walk(m, d, v))
            && (forall f :: Unused(m, d, f) && f != t ==> Unused(m', d, f))
  {
    var m' := WithTable(m, d, i, t);
    TableCreatedKeepsWalks(m, d, dirVirt, i, t);
    WithTableWords(m, d, i, t, d, i);
    forall k | 0 <= k < SELF
      ensures TableOk(m', d, k)
      ensures k != i ==> WordAt(m', d, k) == WordAt(m, d, k) && (HasTable(m, d, k) ==> Table(m, d, k) != t)
    {
      WithTableEntries(m, d, dirVirt, i, t, k);
    }
    forall j, k | 0 <= j < k < SELF
      ensures TablesDiffer(m', d, j, k)
    {
      assert TablesDiffer(m, d, j, k);
      assert TableOk(m', d, j) && TableOk(m', d, k);
    }
    WithTableWords(m, d, i, t, d, SELF);
    forall f | Unused(m, d, f) && f != t
      ensures Unused(m', d, f)
    {
      forall k | 0 <= k < SELF && HasTable(m', d, k)
        ensures Table(m', d, k) != f
      {
        assert TableOk(m', d, k);
      }
    }
  }

  // ---------------------------------------------------------------- creating a table through the borrowed page

  lemma FilledTwice(m: Mem, t: nat, w: u32, x: u32)
    requires t < FrameCount(m)
    ensures Fill(Fill(m, t, w), t, x) == Fill(m, t, x)
  {
  }

  lemma UnusedFrameFilled(m: Mem, d: nat, dirVirt: u32, t: nat, w: u32)
    requires Sound(m, d, dirVirt) && Unused(m, d, t)
    ensures Sound(Fill(m, t, w), d, dirVirt) && Unused(Fill(m, t, w), d, t)
  {
    var m' := Fill(m, t, w);
    forall i: nat | i < 1024
      ensures WordAt(m', d, i) == WordAt(m, d, i)
    {
      WordFill(m, t, w, d, i);
    }
    WordFill(m, t, w, Table(m, d, KERNEL), TableIndex(dirVirt));
    SoundWithSameDirectory(m, m', d, dirVirt);
  }

  /** Memory with the kernel's page SCRATCH pointed at frame `t`. */
  function Borrowed(m: Mem, d: nat, t: nat): Mem
    requires Table(m, d, KERNEL) < FrameCount(m) && t < FRAMES
  {
    Write(m, Table(m, d, KERNEL), SCRATCH, EntryFor(t))
  }

  lemma BorrowedIsSound(m: Mem, d: nat, dirVirt: u32, t: nat)
    requires Sound(m, d, dirVirt) && Unused(m, d, t)
    ensures Table(m, d, KERNEL) < FrameCount(m)
    ensures var m' := Borrowed(m, d, t);
            && Sound(m', d, dirVirt) && Unused(m', d, t) && WindowOnto(m', d, false, SCRATCH_ADDR, t)
            && (forall k: nat :: k < 1024 ==> WordAt(m', d, k) == WordAt(m, d, k))
  {
    SameTable(m, d, dirVirt, KERNEL, KERNEL);
    var kt := Table(m, d, KERNEL);
    EntryWritten(m, d, dirVirt, KERNEL, SCRATCH, EntryFor(t));
    EntryWrittenIsSound(m, d, dirVirt, KERNEL, SCRATCH, EntryFor(t));
    WordWrite(m, kt, SCRATCH, EntryFor(t), kt, SCRATCH);
    var m' := Borrowed(m, d, t);
    assert WordAt(m', d, KERNEL) == WordAt(m, d, KERNEL);
    ScratchWindow(m', d, dirVirt, t);
  }

  /** Pointing the kernel's page SCRATCH at frame `t`, creating the table there and putting the page back
      amounts to creating the table. */
  lemma BorrowedPageRestored(m: Mem, d: nat, dirVirt: u32, i: nat, t: nat)
    requires Sound(m, d, dirVirt) && i < SELF && !HasTable(m, d, i) && Unused(m, d, t)
    ensures Table(m, d, KERNEL) < FrameCount(m)
    ensures var kt := Table(m, d, KERNEL);
            Write(WithTable(Borrowed(m, d, t), d, i, t), kt, SCRATCH, WordAt(m, kt, SCRATCH)) == WithTable(m, d, i, t)
  {
    SameTable(m, d, dirVirt, KERNEL, KERNEL);
    var kt := Table(m, d, KERNEL);
    var borrowed := Borrowed(m, d, t);
    var restored := Write(WithTable(borrowed, d, i, t), kt, SCRATCH, WordAt(m, kt, SCRATCH));
    forall g: nat, j: nat | j < 1024
      ensures WordAt(restored, g, j) == WordAt(WithTable(m, d, i, t), g, j)
    {
      WordWrite(m, kt, SCRATCH, EntryFor(t), g, j);
      WithTableWords(borrowed, d, i, t, g, j);
      WithTableWords(m, d, i, t, g, j);
      WordWrite(WithTable(borrowed, d, i, t), kt, SCRATCH, WordAt(m, kt, SCRATCH), g, j);
    }
    SameWords(restored, WithTable(m, d, i, t));
  }

  // ---------------------------------------------------------------- map_page and unmap_page

  /** What `map_page` writes once the table is there: the frame of `phys` with the attributes of the
      directory entry. */
  function MapIn(m: Mem, d: nat, virt: u32, phys: u32): Mem
    requires Table(m, d, DirIndex(virt)) < FrameCount(m)
  {
    Write(m, Table(m, d, DirIndex(virt)), TableIndex(virt), phys - phys % PAGE + WordAt(m, d, DirIndex(virt)) % PAGE)
  }

  function UnmapPage(m: Mem, d: nat, virt: u32): Mem
    requires HasTable(m, d, DirIndex(virt)) ==> Table(m, d, DirIndex(virt)) < FrameCount(m)
  {
    if HasTable(m, d, DirIndex(virt)) then Write(m, Table(m, d, DirIndex(virt)), TableIndex(virt), 0) else m
  }

  /** A page the two operations may be aimed at: outside the recursive window, and not the page through which
      the directory itself is reached. */
  predicate Mappable(dirVirt: u32, virt: u32) {
    DirIndex(virt) != SELF && PageOf(virt) != PageOf(dirVirt)
  }

  lemma PageIsIndices(v: u32, w: u32)
    ensures PageOf(v) == PageOf(w) <==> DirIndex(v) == DirIndex(w) && TableIndex(v) == TableIndex(w)
    ensures 0 <= DirIndex(v) < 1024 && 0 <= TableIndex(v) < 1024
  {
  }

  lemma EntryWord(phys: u32, pde: u32)
    ensures phys - phys % PAGE + pde % PAGE < WORD
    ensures FrameOf(phys - phys % PAGE + pde % PAGE) == phys / PAGE
    ensures Present(phys - phys % PAGE + pde % PAGE) <==> Present(pde)
  {
    var q, r := phys / PAGE, pde % PAGE;
    assert phys - phys % PAGE == q * PAGE;
    assert (q * PAGE + r) / PAGE == q;
    assert pde == pde / PAGE * PAGE + r;
    Parity(q * 2048, r);
    Parity(pde / PAGE * 2048, r);
  }

  lemma Parity(k: int, r: int)
    ensures (2 * k + r) % 2 == r % 2
  {
  }

  function InFrame(frame: Option<nat>, v: u32): Option<nat> {
    if frame.Some? then Some(frame.value * PAGE + v % PAGE) else None
  }

  /** From `m` to `m'` the page of `virt` changed its translation to `frame`, and no other page outside the
      recursive window changed. */
  ghost predicate Retranslated(m: Mem, m': Mem, d: nat, virt: u32, frame: Option<nat>) {
    forall v: u32 :: DirIndex(v) != SELF ==>
      Walk(m', d, v) == (if PageOf(v) == PageOf(virt) then InFrame(frame, v) else Walk(m, d, v))
  }

  lemma MapInMeans(m: Mem, d: nat, dirVirt: u32, virt: u32, phys: u32)
    requires Sound(m, d, dirVirt) && Mappable(dirVirt, virt) && HasTable(m, d, DirIndex(virt))
    ensures Table(m, d, DirIndex(virt)) < FrameCount(m)
    ensures var m' := MapIn(m, d, virt, phys);
            && Sound(m', d, dirVirt)
            && Retranslated(m, m', d, virt, Some(phys / PAGE))
            && (forall k: nat :: k < 1024 ==> WordAt(m', d, k) == WordAt(m, d, k))
            && (forall f :: Unused(m, d, f) ==> Unused(m', d, f))
  {
    PageIsIndices(virt, dirVirt);
    SameTable(m, d, dirVirt, DirIndex(virt), DirIndex(virt));
    EntryWord(phys, WordAt(m, d, DirIndex(virt)));
    var w: u32 := phys - phys % PAGE + WordAt(m, d, DirIndex(virt)) % PAGE;
    EntryWritten(m, d, dirVirt, DirIndex(virt), TableIndex(virt), w);
    EntryWrittenIsSound(m, d, dirVirt, DirIndex(virt), TableIndex(virt), w);
    forall v: u32 | DirIndex(v) != SELF
      ensures Walk(MapIn(m, d, virt, phys), d, v)
           == if PageOf(v) == PageOf(virt) then InFrame(Some(phys / PAGE), v) else Walk(m, d, v)
    {
      PageIsIndices(v, virt);
    }
  }

  /** `unmap_page` makes the page of `virt` untranslated and leaves every other page outside the recursive
      window as it was. */
  lemma UnmapPageMeans(m: Mem, d: nat, dirVirt: u32, virt: u32)
    requires Sound(m, d, dirVirt) && Mappable(dirVirt, virt)
    ensures HasTable(m, d, DirIndex(virt)) ==> Table(m, d, DirIndex(virt)) < FrameCount(m)
    ensures var m' := UnmapPage(m, d, virt);
            && Sound(m', d, dirVirt)
            && Retranslated(m, m', d, virt, None)
            && (forall f :: Unused(m, d, f) ==> Unused(m', d, f))
  {
    PageIsIndices(virt, dirVirt);
    if HasTable(m, d, DirIndex(virt)) {
      EntryWritten(m, d, dirVirt, DirIndex(virt), TableIndex(virt), 0);
      EntryWrittenIsSound(m, d, dirVirt, DirIndex(virt), TableIndex(virt), 0);
    }
    forall v: u32 | DirIndex(v) != SELF
      ensures Walk(UnmapPage(m, d, virt), d, v) == if PageOf(v) == PageOf(virt) then InFrame(None, v) else Walk(m, d, v)
    {
      PageIsIndices(v, virt);
    }
  }
}
