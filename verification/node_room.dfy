/** Whether the allocator's own list nodes stay out of the addresses it manages, over the runs from start-up. */
module NodeRoom {
  import opened Word
  import opened Blocks
  import opened AllocatorModel
  import opened NodeUse
  import opened Boot
  import VM = VirtualMemory

  function Started(): State { State(BootList(WINDOW), []) }

  /** No byte of `count` nodes lies at an address the allocator manages. */
  ghost predicate NodesUnmanaged(count: nat) {
    forall a :: VM.LISTS <= a < VM.NodeAddr(count) ==> a !in Addrs(BootList(WINDOW))
  }

  lemma RoomForNodes(count: nat)
    ensures NodesUnmanaged(count) <==> count <= 203
  {
    if count > 203 {
      assert BootList(WINDOW)[1].Has(LISTS_END);
      assert VM.LISTS <= LISTS_END < VM.NodeAddr(count) && LISTS_END in Addrs(BootList(WINDOW));
    }
  }

  /** The nodes created by the end of a run from start-up lie outside the addresses managed. */
  ghost predicate StaysClear(ops: seq<Op>, st': State)
    requires Run(Started(), ops, st')
  {
    NodesUnmanaged(Created(3, Started(), ops, st'))
  }

  /** In every run from start-up: exactly if no state has more than 203 blocks, free and in use together. */
  lemma NodesAreUnmanagedExactly(ops: seq<Op>, st': State)
    requires Run(Started(), ops, st')
    ensures StaysClear(ops, st') <==> forall s :: s in Visited(Started(), ops, st') ==> Size(s) <= 203
  {
    RoomForNodes(Created(3, Started(), ops, st'));
    CreatedIsMost(3, Started(), ops, st', 203);
  }

  /** What that means for the nodes themselves. */
  method PerformFromStart(vmm: VM.Vmm, ops: seq<Op>, ghost st': State)
    requires vmm.Valid() && vmm.View() == Started() && vmm.count == 3
    requires Run(Started(), ops, st') && VM.Room(Created(3, Started(), ops, st'), 2)
    modifies vmm`count, vmm.heap, vmm.freeList, vmm.usedList, vmm.unusedList
    ensures vmm.Valid() && vmm.View() == st'
    ensures NodesUnmanaged(vmm.count) <==> forall s :: s in Visited(Started(), ops, st') ==> Size(s) <= 203
  {
    NodesAreUnmanagedExactly(ops, st');
    Perform(vmm, ops, st');
  }

  /** No state of the run has more than `n` blocks in use. */
  ghost predicate LiveAtMost(n: nat, ops: seq<Op>, st': State)
    requires Run(Started(), ops, st')
  {
    forall s :: s in Visited(Started(), ops, st') ==> |s.used| <= n
  }

  lemma FewLiveBlocksStayClear(ops: seq<Op>, st': State)
    requires Run(Started(), ops, st') && LiveAtMost(100, ops, st')
    ensures StaysClear(ops, st')
  {
    StartedInv();
    forall s | s in Visited(Started(), ops, st')
      ensures Size(s) <= 203
    {
      VisitedKeepInv(Started(), ops, st', Addrs(BootList(WINDOW)), s);
      FreeBlocksAreFew(s, BootList(WINDOW));
    }
    NodesAreUnmanagedExactly(ops, st');
  }

  lemma StartedInv()
    ensures Inv(Started(), Addrs(BootList(WINDOW)))
  {
    FreshInv(BootList(WINDOW));
  }

  // ---------------------------------------------------------------- runs that reach the managed addresses

  /** After `k` plain allocations of one byte. */
  function Row(k: nat): State {
    State([Block(k, KERNEL_BASE - k), BootList(WINDOW)[1]], seq(k, i => Block(i, 1)))
  }

  function RowOps(k: nat, n: nat): seq<Op>
    requires k <= n
    decreases n - k
  {
    if k == n then [] else [DoMalloc(1, 1, 0)] + RowOps(k + 1, n)
  }

  lemma RowStep(k: nat)
    requires k < 0x1_0000
    ensures Within(Row(k).free, 0, WINDOW) && Legal(Row(k), DoMalloc(1, 1, 0))
    ensures Step(Row(k), DoMalloc(1, 1, 0)) == Row(k + 1)
  {
    var st := Row(k);
    assert Fits(st.free[0], 2, 0) && FirstFit(st.free, 2, 0) == 0;
    assert !NeedsGap(k, 1, 0);
    assert TakeFrom(st, 1, 0, false).state.free == Row(k + 1).free;
    assert TakeFrom(st, 1, 0, false).state.used == Row(k + 1).used;
  }

  lemma {:induction false} RowRun(k: nat, n: nat)
    requires k <= n <= 0x1_0000
    ensures Run(Row(k), RowOps(k, n), Row(n))
    ensures forall s :: s in Visited(Row(k), RowOps(k, n), Row(n)) ==> Size(s) <= n + 2
    decreases n - k
  {
    if k == n {
    } else {
      RowStep(k);
      RowRun(k + 1, n);
      assert RowOps(k, n)[1..] == RowOps(k + 1, n);
    }
  }

  /** Plain allocations of one byte do it from the 202nd on. */
  lemma PlainRunIsClearExactly(n: nat)
    requires n <= 0x1_0000
    ensures Run(Started(), RowOps(0, n), Row(n))
    ensures StaysClear(RowOps(0, n), Row(n)) <==> n <= 201
  {
    assert Row(0) == Started();
    RowRun(0, n);
    assert Size(Row(n)) == n + 2 && Row(n) in Visited(Row(0), RowOps(0, n), Row(n));
    NodesAreUnmanagedExactly(RowOps(0, n), Row(n));
  }

  /** After `k` allocations of one byte, each with the bound one byte into the block it is taken from: every
      other byte is in use. */
  function Comb(k: nat): State {
    State(Teeth(0, k) + [Block(2 * k, KERNEL_BASE - 2 * k), BootList(WINDOW)[1]], Teeth(1, k))
  }

  /** One byte of every two, from `a` on. */
  function Teeth(a: nat, k: nat): (s: seq<Block>)
    ensures |s| == k && forall i :: 0 <= i < k ==> s[i] == Block(2 * i + a, 1)
  {
    if k == 0 then [] else Teeth(a, k - 1) + [Block(2 * (k - 1) + a, 1)]
  }

  function CombOp(k: nat): Op
    requires k <= 0x1_0000
  {
    DoMalloc(1, 1, 2 * k + 1)
  }

  function CombOps(k: nat, n: nat): seq<Op>
    requires k <= n <= 0x1_0000
    decreases n - k
  {
    if k == n then [] else [CombOp(k)] + CombOps(k + 1, n)
  }

  lemma CombFits(k: nat)
    requires k < 0x1_0000
    ensures Within(Comb(k).free, 0, WINDOW) && |Comb(k).free| == k + 2
    ensures Comb(k).free[k] == Block(2 * k, KERNEL_BASE - 2 * k)
    ensures FirstFit(Comb(k).free, 2, 2 * k + 1) == k
  {
    var free := Comb(k).free;
    assert Fits(free[k], 2, 2 * k + 1);
  }

  lemma CombTaken(k: nat)
    requires k < 0x1_0000
    ensures k < |Comb(k).free| && TakeFrom(Comb(k), 1, k, true).state == Comb(k + 1)
  {
    var st := Comb(k);
    var b := st.free[k];
    assert b == Block(2 * k, KERNEL_BASE - 2 * k) && st.free[..k] == Teeth(0, k);
    assert st.free[k + 1..] == [BootList(WINDOW)[1]];
    assert Rest(b, 1) == Block(2 * k + 1, KERNEL_BASE - 2 * k - 1);
    assert Rest(Rest(b, 1), 1) == Block(2 * k + 2, KERNEL_BASE - 2 * k - 2);
  }

  lemma CombStep(k: nat)
    requires k < 0x1_0000
    ensures Within(Comb(k).free, 0, WINDOW) && Legal(Comb(k), CombOp(k))
    ensures Step(Comb(k), CombOp(k)) == Comb(k + 1)
  {
    CombFits(k);
    CombTaken(k);
    assert NeedsGap(2 * k, 1, 2 * k + 1);
  }

  lemma {:induction false} CombRun(k: nat, n: nat)
    requires k <= n <= 0x1_0000
    ensures Run(Comb(k), CombOps(k, n), Comb(n))
    ensures forall s :: s in Visited(Comb(k), CombOps(k, n), Comb(n)) ==> |s.used| <= n
    decreases n - k
  {
    if k == n {
    } else {
      CombStep(k);
      CombRun(k + 1, n);
      assert CombOps(k, n)[1..] == CombOps(k + 1, n);
    }
  }

  lemma CombReachesManaged(n: nat)
    requires 101 <= n <= 0x1_0000
    ensures Run(Started(), CombOps(0, n), Comb(n))
    ensures LiveAtMost(n, CombOps(0, n), Comb(n)) && !StaysClear(CombOps(0, n), Comb(n))
  {
    assert Comb(0) == Started();
    CombRun(0, n);
    assert Size(Comb(n)) == 2 * n + 2;
    NodesAreUnmanagedExactly(CombOps(0, n), Comb(n));
  }

  /** A bound on the blocks in use keeps the nodes out of the managed addresses in every run exactly if it is no
      more than 100: with 101 in use the free list can already have 103. */
  lemma LiveBoundIsSafeExactly(n: nat)
    ensures (forall ops: seq<Op>, st': State ::
               Run(Started(), ops, st') && LiveAtMost(n, ops, st') ==> StaysClear(ops, st'))
       <==> n <= 100
  {
    if n <= 100 {
      forall ops: seq<Op>, st': State | Run(Started(), ops, st') && LiveAtMost(n, ops, st')
        ensures StaysClear(ops, st')
      {
        FewLiveBlocksStayClear(ops, st');
      }
    } else {
      CombReachesManaged(if n <= 0x1_0000 then n else 0x1_0000);
    }
  }
}
