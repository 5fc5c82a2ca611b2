/** The physical frame allocator on plain values: a set of free frame numbers, and the memory map it is
    computed from. */
module FrameModel {
  import opened Word

  const NO_FRAME: u32 := 0xFFFF_FFFF

  // ---------------------------------------------------------------- handing out frames

  ghost predicate IsLeast(s: set<nat>, m: nat) {
    m in s && forall x :: x in s ==> m <= x
  }

  ghost function Least(s: set<nat>): (m: nat)
    requires s != {}
    ensures IsLeast(s, m)
  {
    LeastExists(s);
    var m :| IsLeast(s, m);
    m
  }

  lemma {:induction false} LeastExists(s: set<nat>)
    requires s != {}
    ensures exists m :: IsLeast(s, m)
  {
    var x :| x in s;
    if s == {x} {
      assert IsLeast(s, x);
    } else {
      LeastExists(s - {x});
      var m :| IsLeast(s - {x}, m);
      assert s == s - {x} + {x};
      assert IsLeast(s, if m < x then m else x) by {
        assert forall y :: y in s ==> y == x || y in s - {x};
      }
    }
  }

  datatype Op = Alloc | Release(addr: u32)

  ghost function Step(free: set<nat>, op: Op): set<nat> {
    match op
    case Alloc => if free == {} then free else free - {Least(free)}
    case Release(addr) => free + {addr / PAGE}
  }

  /** What `alloc_frame` returns when `free` is the set of free frames. */
  ghost function Result(free: set<nat>): nat {
    if free == {} then NO_FRAME else Least(free) * PAGE
  }

  /** Releasing what was just allocated restores the free set. */
  lemma ReleaseUndoesAlloc(free: set<nat>)
    requires free != {} && Least(free) < FRAMES
    ensures Result(free) < NO_FRAME
    ensures Step(Step(free, Alloc), Release(Result(free))) == free
  {
    assert Least(free) * PAGE / PAGE == Least(free);
  }

  /** The free set after the calls `ops`. */
  ghost function After(free: set<nat>, ops: seq<Op>): set<nat>
    decreases |ops|
  {
    if ops == [] then free else Step(After(free, ops[..|ops| - 1]), ops[|ops| - 1])
  }

  lemma {:induction false} StaysTaken(free: set<nat>, ops: seq<Op>, f: nat, m: nat)
    requires m <= |ops| && f !in After(free, ops[..m])
    requires forall k :: m <= k < |ops| && ops[k].Release? ==> ops[k].addr / PAGE != f
    ensures f !in After(free, ops)
    decreases |ops| - m
  {
    if m == |ops| {
      assert ops[..m] == ops;
    } else {
      assert ops[..m + 1][..m] == ops[..m];
      StaysTaken(free, ops, f, m + 1);
    }
  }

  /** In every run, between two calls that return the same frame that frame was released. */
  lemma NoFrameHandedOutTwice(free: set<nat>, ops: seq<Op>, i: nat, j: nat)
    requires i < j < |ops| && ops[i] == Alloc && ops[j] == Alloc
    requires Result(After(free, ops[..i])) == Result(After(free, ops[..j])) != NO_FRAME
    ensures exists k :: i < k < j && ops[k].Release? && ops[k].addr / PAGE * PAGE == Result(After(free, ops[..i]))
  {
    var f := Least(After(free, ops[..i]));
    assert ops[..i + 1][..i] == ops[..i];
    assert f !in After(free, ops[..i + 1]);
    if forall k :: i < k < j && ops[k].Release? ==> ops[k].addr / PAGE != f {
      assert ops[..j][..i + 1] == ops[..i + 1];
      StaysTaken(free, ops[..j], f, i + 1);
      assert false;
    }
  }

  // ---------------------------------------------------------------- the memory map

  /** The frame that step `i` of a loop over the pages from `start` on computes, in 32-bit arithmetic. */
  function FrameAt(start: u32, i: nat): nat { Wrap(start + i * PAGE) / PAGE }

  /** Frame `f` is visited in the first `n` steps of such a loop. */
  predicate Visited(start: u32, n: nat, f: int) {
    exists i: nat :: i < n && FrameAt(start, i) == f
  }

  lemma VisitedByOneMore(start: u32, n: nat)
    ensures forall f: int :: Visited(start, n + 1, f) <==> Visited(start, n, f) || f == FrameAt(start, n)
  {
    forall f: int
      ensures Visited(start, n + 1, f) <==> Visited(start, n, f) || f == FrameAt(start, n)
    {
      if i: nat :| i < n && FrameAt(start, i) == f {
        assert i < n + 1;
      }
    }
  }

  /** A frame number is the first plus the steps made, modulo 2^20. */
  lemma FrameAtWraps(start: u32, i: nat)
    requires i < FRAMES
    ensures var f := start / PAGE + i; FrameAt(start, i) == if f < FRAMES then f else f - FRAMES
  {
  }

  /** As long as no sum wraps, the frames visited follow each other. */
  lemma VisitedUnwrapped(start: u32, n: nat, f: int)
    requires start / PAGE + n <= FRAMES
    ensures Visited(start, n, f) <==> start / PAGE <= f < start / PAGE + n
  {
    forall i: nat | i < n
      ensures FrameAt(start, i) == start / PAGE + i
    {
      FrameAtWraps(start, i);
    }
    if start / PAGE <= f < start / PAGE + n {
      assert FrameAt(start, f - start / PAGE) == f;
    }
  }

  /** All frames visited have a bit. */
  predicate VisitFits(start: u32, n: nat, bits: nat) {
    forall i: nat :: i < n ==> FrameAt(start, i) < bits
  }

  /** One entry of the Multiboot memory map. */
  datatype Entry = Entry(baseLow: u32, baseHigh: u32, lengthLow: u32, lengthHigh: u32, kind: u32) {
    /** The frames the code frees for this entry; it looks at the low words only, and its addresses wrap. */
    predicate Frees(f: int) {
      kind == 1 && Visited(baseLow, lengthLow / PAGE, f)
    }

    function Base(): int { baseHigh * WORD + baseLow }

    function End(): int { Base() + lengthHigh * WORD + lengthLow }

    /** The whole of frame `f` is memory this entry declares available. */
    predicate Available(f: int) {
      kind == 1 && Base() <= f * PAGE && (f + 1) * PAGE <= End()
    }

    predicate Fits(bits: nat) {
      kind == 1 ==> VisitFits(baseLow, lengthLow / PAGE, bits)
    }

    /** The length's low word holds no whole page, or the region starts page-aligned below 4 GB and that many
        bytes of it end there too. */
    predicate Plain() {
      lengthLow < PAGE
      || (baseLow % PAGE == 0 && baseHigh == 0 && baseLow / PAGE + lengthLow / PAGE <= FRAMES)
    }
  }

  /** Only available memory is freed for an entry exactly when it is plain. */
  lemma RegionIsSafeExactly(e: Entry)
    requires e.kind == 1
    ensures (forall f: nat :: e.Frees(f) ==> e.Available(f)) <==> e.Plain()
  {
    var first, n := e.baseLow / PAGE, e.lengthLow / PAGE;
    if e.Plain() {
      forall f: nat | e.Frees(f)
        ensures e.Available(f)
      {
        VisitedUnwrapped(e.baseLow, n, f);
      }
    } else {
      FrameAtWraps(e.baseLow, 0);
      assert e.Frees(first);
      if first + n > FRAMES {
        FrameAtWraps(e.baseLow, FRAMES - first);
        assert e.Frees(0);
      }
    }
  }

  /** All available frames and no others are freed exactly when the entry is plain and shorter than 4 GB. */
  lemma RegionIsFreedExactly(e: Entry)
    requires e.kind == 1
    ensures (forall f: nat :: e.Frees(f) <==> e.Available(f)) <==> e.Plain() && e.lengthHigh == 0
  {
    RegionIsSafeExactly(e);
    if e.Plain() {
      var last := e.End() / PAGE - 1;
      forall f: nat
        ensures e.Frees(f) <==> e.baseLow / PAGE <= f < e.baseLow / PAGE + e.lengthLow / PAGE
      {
        if e.lengthLow >= PAGE {
          VisitedUnwrapped(e.baseLow, e.lengthLow / PAGE, f);
        }
      }
      if e.lengthHigh > 0 {
        assert e.Available(last) && !e.Frees(last);
      }
    }
  }

  /** Two pages from the last one below 4 GB on: the second address wraps, and frame 0 is freed. */
  lemma WrappingRegionIsUnsafe()
    ensures var e := Entry(0xFFFF_F000, 0, 0x2000, 0, 1); e.Frees(0) && !e.Available(0)
  {
    assert FrameAt(0xFFFF_F000, 1) == 0;
  }

  /** The frames freed for an entry have bits exactly if the last one does, or, should the addresses wrap, if all
      frames with a 32-bit address do. */
  lemma EntryFitsExactly(e: Entry, bits: nat)
    requires e.kind == 1 && e.lengthLow >= PAGE
    ensures e.Fits(bits) <==> Min(e.baseLow / PAGE + e.lengthLow / PAGE, FRAMES) <= bits
  {
    var first, n := e.baseLow / PAGE, e.lengthLow / PAGE;
    forall i: nat | i < n
      ensures FrameAt(e.baseLow, i) == if first + i < FRAMES then first + i else first + i - FRAMES
    {
      FrameAtWraps(e.baseLow, i);
    }
    var last := Min(first + n, FRAMES) - 1 - first;
    assert FrameAt(e.baseLow, last) == first + last;
  }

  /** Some entry declares frame `f` available. */
  predicate Provided(es: seq<Entry>, f: int) {
    exists i :: 0 <= i < |es| && es[i].Available(f)
  }

  /** Every type-1 entry is plain and shorter than 4 GB. */
  predicate PlainMap(es: seq<Entry>) {
    forall i :: 0 <= i < |es| && es[i].kind == 1 ==> es[i].Plain() && es[i].lengthHigh == 0
  }

  /** For a map of such entries exactly the available frames are freed. */
  lemma PlainMapIsFreedExactly(es: seq<Entry>, f: nat)
    requires PlainMap(es)
    ensures Freed(es, f) <==> Provided(es, f)
  {
    forall i | 0 <= i < |es|
      ensures es[i].Frees(f) <==> es[i].Available(f)
    {
      if es[i].kind == 1 {
        RegionIsFreedExactly(es[i]);
      }
    }
  }

  function U32At(m: seq<u32>, o: nat): u32
    requires o + 4 <= |m| && forall i :: 0 <= i < |m| ==> m[i] < 256
  {
    m[o] + 0x100 * m[o + 1] + 0x1_0000 * m[o + 2] + 0x100_0000 * m[o + 3]
  }

  predicate Bytes(m: seq<u32>) {
    forall i :: 0 <= i < |m| ==> m[i] < 256
  }

  /** The entries from offset `o` on tile the rest of the map; each is preceded by its size, which does not
      count the size field itself. */
  predicate Tiled(m: seq<u32>, o: nat)
    requires Bytes(m)
    decreases |m| - o
  {
    o == |m| || (o + 24 <= |m| && o + U32At(m, o) + 4 <= |m| && Tiled(m, o + U32At(m, o) + 4))
  }

  function EntryAt(m: seq<u32>, o: nat): Entry
    requires Bytes(m) && o + 24 <= |m|
  {
    Entry(U32At(m, o + 4), U32At(m, o + 8), U32At(m, o + 12), U32At(m, o + 16), U32At(m, o + 20))
  }

  function Entries(m: seq<u32>, o: nat): seq<Entry>
    requires Bytes(m) && Tiled(m, o)
    decreases |m| - o
  {
    if o == |m| then [] else [EntryAt(m, o)] + Entries(m, o + U32At(m, o) + 4)
  }

  predicate Freed(es: seq<Entry>, f: int) {
    exists i :: 0 <= i < |es| && es[i].Frees(f)
  }

  lemma FreedHaveAddresses(es: seq<Entry>)
    ensures forall f: int :: Freed(es, f) ==> 0 <= f < FRAMES
  {
  }

  lemma FreedByOneMore(es: seq<Entry>, e: Entry)
    ensures forall f: int :: Freed(es + [e], f) <==> Freed(es, f) || e.Frees(f)
  {
    var es' := es + [e];
    forall f: int
      ensures Freed(es', f) <==> Freed(es, f) || e.Frees(f)
    {
      if Freed(es, f) {
        var i :| 0 <= i < |es| && es[i].Frees(f);
        assert es'[i].Frees(f);
      }
      assert es'[|es|] == e;
    }
  }

  /** Reading one more entry of the map. */
  lemma NextEntry(m: seq<u32>, o: nat, seen: seq<Entry>)
    requires Bytes(m) && Tiled(m, 0) && Tiled(m, o) && o < |m| && Entries(m, 0) == seen + Entries(m, o)
    ensures Tiled(m, o + U32At(m, o) + 4)
    ensures Entries(m, 0) == (seen + [EntryAt(m, o)]) + Entries(m, o + U32At(m, o) + 4)
    ensures Entries(m, 0)[|seen|] == EntryAt(m, o)
  {
  }

  /** Frame `f` lies in one of the first `n` present 4 MB boot pages. */
  predicate InBootPage(pd: seq<u32>, n: nat, f: int)
    requires n <= |pd|
  {
    exists i :: 0 <= i < n && InPage(pd[i], f)
  }

  predicate InPage(pde: u32, f: int) {
    pde % 2 == 1 && Visited(pde - pde % PAGE, 1024, f)
  }

  lemma OneMoreBootPage(pd: seq<u32>, n: nat)
    requires n < |pd|
    ensures forall f: int :: InBootPage(pd, n + 1, f) <==> InBootPage(pd, n, f) || InPage(pd[n], f)
  {
  }

  predicate MapFits(es: seq<Entry>, bits: nat) {
    forall i :: 0 <= i < |es| ==> es[i].Fits(bits)
  }

  predicate BootFits(pd: seq<u32>, bits: nat) {
    forall i :: 0 <= i < |pd| && pd[i] % 2 == 1 ==> VisitFits(pd[i] - pd[i] % PAGE, 1024, bits)
  }

  /** How many frames the allocator manages when `memUpper` KB lie above 1 MB: those of whole megabytes, plus two;
      the number of KB is a 32-bit one. */
  function FramesFor(memUpper: u32): nat {
    (memUpper / 1024 + 2) * 256 % 0x4000_0000
  }

  /** That is the number the code computes, and the bitmap has exactly one bit for each of them. */
  lemma WholeBytes(memUpper: u32)
    ensures Wrap((memUpper / 1024 + 2) * 1024) / 4 == FramesFor(memUpper)
    ensures 8 * (FramesFor(memUpper) / 8) == FramesFor(memUpper)
  {
    var mb := memUpper / 1024 + 2;
    var left := if mb < 0x40_0000 then mb else mb - 0x40_0000;
    Quarter(left * 256);
    Eighth(left * 32);
  }

  /** The bitmap covers all memory, and at most one megabyte too much. */
  lemma MemoryIsCovered(memUpper: u32)
    requires memUpper / 1024 + 2 < 0x40_0000
    ensures var bytes := (1024 + memUpper) * 1024;
            bytes < FramesFor(memUpper) * PAGE <= bytes + 0x10_0000
  {
    var q, r := memUpper / 1024, memUpper % 1024;
    assert memUpper == q * 1024 + r;
    assert FramesFor(memUpper) == (q + 2) * 256;
  }

  lemma Quarter(x: nat)
    ensures 4 * x / 4 == x
  {
  }

  lemma Eighth(x: nat)
    ensures 8 * x / 8 == x
  {
  }
}
