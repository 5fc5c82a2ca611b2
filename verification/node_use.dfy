/** How many list nodes a run of the allocator creates, and how few blocks in use keep that number small. */
module NodeUse {
  import opened Word
  import opened Blocks
  import opened AllocatorModel
  import VM = VirtualMemory

  function Size(st: State): nat { |st.free| + |st.used| }

  // ---------------------------------------------------------------- nodes created by a run

  /** The states a run goes through. */
  ghost function Visited(st: State, ops: seq<Op>, st': State): (r: seq<State>)
    requires Run(st, ops, st')
    ensures st in r && st' in r
    decreases |ops|
  {
    if ops == [] then [st] else [st] + Visited(Step(st, ops[0]), ops[1..], st')
  }

  /** The number of nodes after a run that began with `count`: each call leaves the greater of the number before
      it and the number of blocks after it. */
  ghost function Created(count: nat, st: State, ops: seq<Op>, st': State): (n: nat)
    requires Run(st, ops, st')
    ensures count <= n
    decreases |ops|
  {
    if ops == [] then count
    else
      var next := Step(st, ops[0]);
      Created(Max(count, Size(next)), next, ops[1..], st')
  }

  /** Over a whole run that is the greatest number of blocks in any state visited. */
  lemma {:induction false} CreatedIsMost(count: nat, st: State, ops: seq<Op>, st': State, bound: nat)
    requires Run(st, ops, st') && Size(st) <= count
    ensures Created(count, st, ops, st') <= bound
       <==> count <= bound && forall s :: s in Visited(st, ops, st') ==> Size(s) <= bound
    decreases |ops|
  {
    if ops == [] {
    } else {
      var next := Step(st, ops[0]);
      CreatedIsMost(Max(count, Size(next)), next, ops[1..], st', bound);
      assert next in Visited(next, ops[1..], st');
    }
  }

  lemma {:induction false} VisitedKeepInv(st: State, ops: seq<Op>, st': State, managed: iset<int>, s: State)
    requires Inv(st, managed) && Run(st, ops, st') && s in Visited(st, ops, st')
    ensures Inv(s, managed)
    decreases |ops|
  {
    if ops == [] || s == st {
    } else {
      RunKeepsInv(st, ops[..1], Step(st, ops[0]), managed);
      VisitedKeepInv(Step(st, ops[0]), ops[1..], st', managed, s);
    }
  }

  /** Making the first call of a run. */
  lemma FirstCall(count: nat, st: State, ops: seq<Op>, st': State)
    requires Run(st, ops, st') && ops != []
    ensures Within(st.free, 0, WINDOW) && Legal(st, ops[0]) && Run(Step(st, ops[0]), ops[1..], st')
    ensures var next := Step(st, ops[0]);
            Created(count, st, ops, st') == Created(Max(count, Size(next)), next, ops[1..], st')
    ensures VM.Room(Created(count, st, ops, st'), 2) ==> VM.Room(count, 2)
  {
    RoomForFewer(count, Created(count, st, ops, st'));
  }

  lemma RoomForFewer(count: nat, n: nat)
    requires count <= n
    ensures VM.Room(n, 2) ==> VM.Room(count, 2)
  {
  }

  /** The calls of a run, made one after the other. */
  method Perform(vmm: VM.Vmm, ops: seq<Op>, ghost st': State)
    requires vmm.Valid() && Run(vmm.View(), ops, st') && VM.Room(Created(vmm.count, vmm.View(), ops, st'), 2)
    modifies vmm`count, vmm.heap, vmm.freeList, vmm.usedList, vmm.unusedList
    ensures vmm.Valid() && vmm.View() == st'
    ensures vmm.count == old(Created(vmm.count, vmm.View(), ops, st'))
    decreases |ops|
  {
    if ops != [] {
      FirstCall(vmm.count, vmm.View(), ops, st');
      Call(vmm, ops[0]);
      Perform(vmm, ops[1..], st');
    }
  }

  method Call(vmm: VM.Vmm, op: Op)
    requires vmm.Valid() && Legal(vmm.View(), op) && VM.Room(vmm.count, 2)
    modifies vmm`count, vmm.heap, vmm.freeList, vmm.usedList, vmm.unusedList
    ensures vmm.Valid() && vmm.View() == Step(old(vmm.View()), op)
    ensures vmm.count == Max(old(vmm.count), Size(vmm.View()))
  {
    match op
    case DoMalloc(size, align, above) => var _ := vmm.MallocAbove(size, align, above);
    case DoFree(addr) => vmm.Free(addr);
  }

  // ---------------------------------------------------------------- free blocks against blocks in use

  lemma {:induction false} Pigeonhole(o: seq<nat>, m: nat)
    requires forall i :: 0 <= i < |o| ==> o[i] < m
    requires forall i, j :: 0 <= i < j < |o| ==> o[i] != o[j]
    ensures |o| <= m
  {
    if o == [] {
    } else if i: nat :| i < |o| && o[i] == m - 1 {
      Pigeonhole(o[..i] + o[i + 1..], m - 1);
    } else {
      assert o[0] < m;
      Pigeonhole(o, m - 1);
    }
  }

  /** Number `n` owns address `a`: it is a block in use that holds `a`, or, counted behind those, a block of `l`
      that ends at `a`. */
  predicate Owns(st: State, l: seq<Block>, n: nat, a: int) {
    if n < |st.used| then st.used[n].Has(a)
    else n < |st.used| + |l| && l[n - |st.used|].End() == a
  }

  /** The address behind a free block is in use or behind one of the blocks managed. */
  lemma EndIsOwned(st: State, l: seq<Block>, i: nat) returns (n: nat)
    requires Inv(st, Addrs(l)) && i < |st.free|
    ensures Owns(st, l, n, st.free[i].End())
  {
    var a := st.free[i].End();
    EndIsGap(st.free, i);
    assert st.free[i].Has(a - 1) && a - 1 in Addrs(l);
    if a in Addrs(l) {
      assert a in Addrs(st.used);
      n :| 0 <= n < |st.used| && st.used[n].Has(a);
    } else {
      var j :| 0 <= j < |l| && l[j].Has(a - 1);
      n := |st.used| + j;
    }
  }

  lemma OwnersDiffer(st: State, l: seq<Block>, i: nat, j: nat, n: nat)
    requires Inv(st, Addrs(l)) && i < j < |st.free|
    requires Owns(st, l, n, st.free[i].End())
    ensures !Owns(st, l, n, st.free[j].End())
  {
    assert st.free[i].End() < st.free[j].base;
    if n < |st.used| {
      assert st.used[n].Apart(st.free[j]);
    }
  }

  /** Each free block ends before a block in use or at the end of one of the blocks managed from the start, and no
      two before the same; so the free list is longer than the used list by the number of those at most. */
  lemma FreeBlocksAreFew(st: State, l: seq<Block>)
    requires Inv(st, Addrs(l))
    ensures |st.free| <= |st.used| + |l|
  {
    var owner: seq<nat> := [];
    for i := 0 to |st.free|
      invariant |owner| == i
      invariant forall k :: 0 <= k < i ==> Owns(st, l, owner[k], st.free[k].End())
    {
      var n := EndIsOwned(st, l, i);
      owner := owner + [n];
    }
    forall i, j | 0 <= i < j < |owner|
      ensures owner[i] != owner[j]
    {
      OwnersDiffer(st, l, i, j, owner[i]);
    }
    Pigeonhole(owner, |st.used| + |l|);
  }
}
