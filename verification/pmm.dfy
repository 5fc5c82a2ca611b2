/** The physical frame allocator: a bitmap whose clear bits are the free frames. */
module PhysicalMemory {
  import opened Word
  import opened Bitmaps
  import opened FrameModel

  class Pmm {
    const frames: Bitmap

    ghost function Free(): set<nat>
      reads frames.addr
    {
      frames.Clear()
    }

    /** Every free frame has a 32-bit address. */
    ghost predicate Valid()
      reads frames.addr
    {
      forall f :: f in Free() ==> f < FRAMES
    }

    /** Clear the bits of the frames of `count` pages from `start` on. */
    method FreeRegion(start: u32, count: nat)
      requires VisitFits(start, count, 8 * frames.addr.Length)
      modifies frames.addr
      ensures forall f: nat :: f in Free() <==> f in old(Free()) || Visited(start, count, f)
    {
      for i := 0 to count
        invariant forall f: nat :: f in Free() <==> f in old(Free()) || Visited(start, i, f)
      {
        VisitedByOneMore(start, i);
        var frameAddr := Wrap(start + i * PAGE);
        var bit := frameAddr / PAGE;
        assert bit == FrameAt(start, i);
        frames.ClearBit(bit);
      }
    }

    /** Set the bits of the 1024 frames of a 4 MB page. */
    method ReservePage(physAddr: u32)
      requires VisitFits(physAddr, 1024, 8 * frames.addr.Length)
      modifies frames.addr
      ensures forall f: nat :: f in Free() <==> f in old(Free()) && !Visited(physAddr, 1024, f)
    {
      for j := 0 to 1024
        invariant forall f: nat :: f in Free() <==> f in old(Free()) && !Visited(physAddr, j, f)
      {
        VisitedByOneMore(physAddr, j);
        var frameAddr := Wrap(j * PAGE + physAddr);
        var bit := frameAddr / PAGE;
        assert bit == FrameAt(physAddr, j);
        frames.SetBit(bit);
      }
    }

    method FreeRegions(mmap: seq<u32>)
      requires Bytes(mmap) && Tiled(mmap, 0) && Free() == {}
      requires MapFits(Entries(mmap, 0), 8 * frames.addr.Length)
      modifies frames.addr
      ensures forall f: nat :: f in Free() <==> Freed(Entries(mmap, 0), f)
    {
      var o := 0;
      ghost var seen: seq<Entry> := [];
      while o < |mmap|
        invariant 0 <= o <= |mmap| && Tiled(mmap, o) && Entries(mmap, 0) == seen + Entries(mmap, o)
        invariant forall f: nat :: f in Free() <==> Freed(seen, f)
        decreases |mmap| - o
      {
        NextEntry(mmap, o, seen);
        FreedByOneMore(seen, EntryAt(mmap, o));
        if U32At(mmap, o + 20) == 1 {
          FreeRegion(U32At(mmap, o + 4), U32At(mmap, o + 12) / PAGE);
        }
        seen := seen + [EntryAt(mmap, o)];
        o := o + U32At(mmap, o) + 4;
      }
      assert Entries(mmap, 0) == seen;
    }

    /** Set the bits of the frames of every present boot page. */
    method ReserveBootPages(bootDir: seq<u32>)
      requires |bootDir| == 1024 && BootFits(bootDir, 8 * frames.addr.Length)
      modifies frames.addr
      ensures forall f: nat :: f in Free() <==> f in old(Free()) && !InBootPage(bootDir, 1024, f)
    {
      for i := 0 to 1024
        invariant forall f: nat :: f in Free() <==> f in old(Free()) && !InBootPage(bootDir, i, f)
      {
        if bootDir[i] % 2 == 1 {
          ReservePage(bootDir[i] - bootDir[i] % PAGE);
        }
        OneMoreBootPage(bootDir, i);
      }
    }

    /** A frame ends up free exactly when some type-1 entry frees it, which for a plain map means declares it
        available, and no present boot page holds it. */
    constructor Initialize(memUpper: u32, mmap: seq<u32>, bootDir: seq<u32>)
      requires Bytes(mmap) && Tiled(mmap, 0) && MapFits(Entries(mmap, 0), FramesFor(memUpper))
      requires |bootDir| == 1024 && BootFits(bootDir, FramesFor(memUpper))
      ensures Valid() && 8 * frames.addr.Length == FramesFor(memUpper) && fresh(frames.addr)
      ensures forall f: nat :: f in Free() <==> Freed(Entries(mmap, 0), f) && !InBootPage(bootDir, 1024, f)
      ensures PlainMap(Entries(mmap, 0)) ==>
                forall f: nat :: f in Free() <==> Provided(Entries(mmap, 0), f) && !InBootPage(bootDir, 1024, f)
    {
      WholeBytes(memUpper);
      var memInMb: u32 := memUpper / 1024 + 2;
      var memInKb := Wrap(memInMb * 1024);
      var numFrames: u32 := memInKb / 4;
      frames := new Bitmap(numFrames / 8);
      new;
      frames.SetAllBits();
      FreeRegions(mmap);
      ReserveBootPages(bootDir);
      FreedHaveAddresses(Entries(mmap, 0));
      if PlainMap(Entries(mmap, 0)) {
        forall f: nat
          ensures Freed(Entries(mmap, 0), f) <==> Provided(Entries(mmap, 0), f)
        {
          PlainMapIsFreedExactly(Entries(mmap, 0), f);
        }
      }
    }

    /** The address of the least free frame, which is taken; NO_FRAME if none is free. */
    method AllocFrame() returns (result: u32)
      requires Valid()
      modifies frames.addr
      ensures Valid()
      ensures result as nat == Result(old(Free())) && Free() == Step(old(Free()), Alloc)
      ensures result == NO_FRAME <==> old(Free()) == {}
    {
      result := 0xFFFF_FFFF;
      var any := frames.AnyBitClear();
      if any {
        var firstClearBit := frames.FindFirstClearBit();
        assert firstClearBit in Free();
        frames.SetBit(firstClearBit);
        result := firstClearBit * PAGE;
      }
    }

    method FreeFrame(addr: u32)
      requires Valid() && addr / PAGE < 8 * frames.addr.Length
      modifies frames.addr
      ensures Valid() && Free() == Step(old(Free()), Release(addr))
    {
      var alignedAddr := addr - addr % PAGE;
      var bit := alignedAddr / PAGE;
      assert bit == addr / PAGE < FRAMES;
      frames.ClearBit(bit);
      assert Free() == old(Free()) + {bit};
    }
  }
}
