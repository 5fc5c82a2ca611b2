/** Where the allocator and paging meet: the addresses the allocator manages are those the hardware does not
    translate. */
module AddressSpace {
  import opened Word
  import opened PageModel
  import Blocks
  import VM = VirtualMemory
  import Model = AllocatorModel

  /** The directory and tables in memory, as the allocator's initialization reads them: the directory through
      its own address, table `i` through the recursive window. */
  function TablesIn(m: Mem, d: nat): (t: VM.Tables)
    ensures t.Valid()
  {
    VM.Tables(WordsOf(m, d), seq(1024, i requires 0 <= i < 1024 => WordsOf(m, Table(m, d, i))))
  }

  function WordsOf(m: Mem, f: nat): (s: seq<u32>)
    ensures |s| == 1024
  {
    seq(1024, j requires 0 <= j < 1024 => WordAt(m, f, j))
  }

  /** What is read at 0xFFC00000 + (i << 12) + 4*j is what `TablesIn` holds. */
  lemma ReadThroughWindow(m: Mem, d: nat, dirVirt: u32, i: nat, j: nat)
    requires Sound(m, d, dirVirt) && i < 1024 && j < 1024 && HasTable(m, d, i)
    ensures WINDOW + PAGE * i + 4 * j < WORD && Walk(m, d, WINDOW + PAGE * i + 4 * j).Some?
    ensures Walk(m, d, WINDOW + PAGE * i + 4 * j).value / 4 == Table(m, d, i) * 1024 + j
    ensures TablesIn(m, d).pt[i][j] == WordAt(m, Table(m, d, i), j)
  {
  }

  /** The allocator takes an address for unmapped exactly when the hardware walk fails on it. */
  lemma UnmappedIsUntranslated(m: Mem, d: nat, a: u32)
    ensures TablesIn(m, d).Unmapped(a) <==> Walk(m, d, a) == None
  {
  }

  /** If what is managed is what was unmapped below the window, no block handed out in any run covers an
      address that the frozen tables translate. */
  lemma AllocationsAreUntranslated(m: Mem, d: nat, st: Model.State, ops: seq<Model.Op>, st': Model.State,
                                   managed: iset<int>, k: nat, a: u32)
    requires Model.Inv(st, managed) && Model.Run(st, ops, st') && k < |st'.used| && st'.used[k].Has(a)
    requires forall x :: x in managed <==> x < WINDOW && TablesIn(m, d).Unmapped(x)
    ensures Walk(m, d, a) == None && a < WINDOW
  {
    Model.RunKeepsInv(st, ops, st', managed);
    assert Blocks.Covers(st'.used, a);
    assert a in Blocks.Addrs(st'.used);
    assert a in managed;
    UnmappedIsUntranslated(m, d, a);
  }
}
