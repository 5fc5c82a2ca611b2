/** The virtual address allocator over its three intrusive lists.

    Nodes live in an arena that grows by one record of 20 bytes whenever no recycled node is left. Every
    method is proved to do to the (base, size) records exactly what the value-level model prescribes. Loops
    that test their condition at the bottom in the source are entered here with a non-null candidate. */
module VirtualMemory {
  import opened Word
  import opened Blocks
  import opened LinkedList
  import opened Model = AllocatorModel

  const LISTS: u32 := 0xC040_0000                            // where the three list headers are put
  const LIST_BYTES := 8
  const NODE_BYTES := 12
  const DATA_BYTES := 8
  const RECORD := NODE_BYTES + DATA_BYTES
  const FIRST_NODE: u32 := LISTS + 3 * LIST_BYTES

  // ---------------------------------------------------------------- the node arena

  function NodeAddr(k: int): int { FIRST_NODE + RECORD * k }

  /** `n` more records fit below the end of the address space. */
  predicate Room(count: nat, n: nat) {
    NodeAddr(count + n) <= WORD
  }

  /** One node for every page below the window, and two more, would still fit. */
  lemma RoomLeft(count: nat)
    requires count <= 1023 * 1024
    ensures Room(count, 2)
  {
  }

  /** The addresses of the first `count` records, laid out back to back. */
  ghost function Arena(count: nat): set<int> {
    if count == 0 then {} else Arena(count - 1) + {NodeAddr(count - 1)}
  }

  lemma {:induction false} ArenaBounds(count: nat)
    ensures forall a :: a in Arena(count) ==> FIRST_NODE <= a <= NodeAddr(count - 1)
  {
    if count == 0 {
    } else {
      ArenaBounds(count - 1);
    }
  }

  /** The node at `a`, if there is one, is in exactly one of the lists or is the one in `held`. */
  predicate Placed(a: u32, keys: set<u32>, free: seq<u32>, used: seq<u32>, unused: seq<u32>, held: seq<u32>) {
    && (a in keys <==> a in free || a in used || a in unused || a in held)
    && NotBoth(a, free, used) && NotBoth(a, free, unused) && NotBoth(a, used, unused)
    && NotBoth(a, free, held) && NotBoth(a, used, held) && NotBoth(a, unused, held)
  }

  /** The nodes of the three lists and the one in `held` share nothing; together they are the `count` records
      laid out back to back from FIRST_NODE on. */
  ghost predicate Separate(keys: set<u32>, free: seq<u32>, used: seq<u32>, unused: seq<u32>, held: seq<u32>,
                           count: nat) {
    && (forall a: u32 :: Placed(a, keys, free, used, unused, held))
    && |free| + |used| + |unused| + |held| == count
    && keys == Arena(count)
  }

  lemma ListsDisjoint(keys: set<u32>, free: seq<u32>, used: seq<u32>, unused: seq<u32>, held: seq<u32>, count: nat)
    requires Separate(keys, free, used, unused, held, count)
    ensures Disjoint(free, used) && Disjoint(used, free) && Disjoint(free, unused) && Disjoint(unused, free)
    ensures Disjoint(used, unused) && Disjoint(unused, used)
    ensures forall a :: a in held ==> a != 0 && a in keys && a !in free && a !in used && a !in unused
  {
    ArenaBounds(count);
    forall a: u32
      ensures NotBoth(a, free, used) && NotBoth(a, used, free) && NotBoth(a, free, unused)
      ensures NotBoth(a, unused, free) && NotBoth(a, used, unused) && NotBoth(a, unused, used)
      ensures a in held ==> a != 0 && a in keys && a !in free && a !in used && a !in unused
    {
      assert Placed(a, keys, free, used, unused, held);
    }
  }

  lemma InsertMember(s: seq<u32>, i: nat, x: u32, a: u32)
    requires i <= |s|
    ensures a in InsertAt(s, i, x) <==> a in s || a == x
  {
  }

  lemma RemoveMember(s: seq<u32>, i: nat, a: u32)
    requires i < |s| && Distinct(s)
    ensures a in RemoveAt(s, i) <==> a in s && a != s[i]
  {
    var t := RemoveAt(s, i);
    assert InsertAt(t, i, s[i]) == s;
    InsertMember(t, i, s[i], a);
    if s[i] in t {
      var k :| 0 <= k < |t| && t[k] == s[i];
      SamePlace(s, i, if k < i then k else k + 1);
    }
  }

  lemma NodeGrown(keys: set<u32>, free: seq<u32>, used: seq<u32>, unused: seq<u32>, count: nat, a: u32)
    requires Separate(keys, free, used, unused, [], count) && a == NodeAddr(count)
    ensures a !in keys && Separate(keys + {a}, free, used, unused, [a], count + 1)
  {
    ArenaBounds(count);
    forall x: u32
      ensures Placed(x, keys + {a}, free, used, unused, [a])
    {
      assert Placed(x, keys, free, used, unused, []);
    }
  }

  lemma HeldToFree(keys: set<u32>, free: seq<u32>, used: seq<u32>, unused: seq<u32>, count: nat, i: nat, n: u32)
    requires Separate(keys, free, used, unused, [n], count) && i <= |free|
    ensures Separate(keys, InsertAt(free, i, n), used, unused, [], count)
  {
    forall a: u32
      ensures Placed(a, keys, InsertAt(free, i, n), used, unused, [])
    {
      assert Placed(a, keys, free, used, unused, [n]);
      InsertMember(free, i, n, a);
    }
  }

  lemma FreeToHeld(keys: set<u32>, free: seq<u32>, used: seq<u32>, unused: seq<u32>, count: nat, i: nat)
    requires Separate(keys, free, used, unused, [], count) && i < |free| && Distinct(free)
    ensures Separate(keys, RemoveAt(free, i), used, unused, [free[i]], count)
  {
    forall a: u32
      ensures Placed(a, keys, RemoveAt(free, i), used, unused, [free[i]])
    {
      assert Placed(a, keys, free, used, unused, []);
      RemoveMember(free, i, a);
    }
  }

  lemma HeldToUsed(keys: set<u32>, free: seq<u32>, used: seq<u32>, unused: seq<u32>, count: nat, i: nat, n: u32)
    requires Separate(keys, free, used, unused, [n], count) && i <= |used|
    ensures Separate(keys, free, InsertAt(used, i, n), unused, [], count)
  {
    Permuted(keys, free, used, unused, [n], count);
    HeldToFree(keys, used, free, unused, count, i, n);
    Permuted(keys, InsertAt(used, i, n), free, unused, [], count);
  }

  lemma HeldToUnused(keys: set<u32>, free: seq<u32>, used: seq<u32>, unused: seq<u32>, count: nat, i: nat, n: u32)
    requires Separate(keys, free, used, unused, [n], count) && i <= |unused|
    ensures Separate(keys, free, used, InsertAt(unused, i, n), [], count)
  {
    Permuted(keys, free, used, unused, [n], count);
    HeldToFree(keys, unused, used, free, count, i, n);
    Permuted(keys, InsertAt(unused, i, n), used, free, [], count);
  }

  lemma UsedToHeld(keys: set<u32>, free: seq<u32>, used: seq<u32>, unused: seq<u32>, count: nat, i: nat)
    requires Separate(keys, free, used, unused, [], count) && i < |used| && Distinct(used)
    ensures Separate(keys, free, RemoveAt(used, i), unused, [used[i]], count)
  {
    Permuted(keys, free, used, unused, [], count);
    FreeToHeld(keys, used, free, unused, count, i);
    Permuted(keys, RemoveAt(used, i), free, unused, [used[i]], count);
  }

  lemma UnusedToHeld(keys: set<u32>, free: seq<u32>, used: seq<u32>, unused: seq<u32>, count: nat, i: nat)
    requires Separate(keys, free, used, unused, [], count) && i < |unused| && Distinct(unused)
    ensures Separate(keys, free, used, RemoveAt(unused, i), [unused[i]], count)
  {
    Permuted(keys, free, used, unused, [], count);
    FreeToHeld(keys, unused, used, free, count, i);
    Permuted(keys, RemoveAt(unused, i), used, free, [unused[i]], count);
  }

  /** Which of the three lists plays which part does not matter. */
  lemma Permuted(keys: set<u32>, free: seq<u32>, used: seq<u32>, unused: seq<u32>, held: seq<u32>, count: nat)
    requires Separate(keys, free, used, unused, held, count)
    ensures Separate(keys, used, free, unused, held, count) && Separate(keys, unused, used, free, held, count)
  {
    forall a: u32
      ensures Placed(a, keys, used, free, unused, held) && Placed(a, keys, unused, used, free, held)
    {
      assert Placed(a, keys, free, used, unused, held);
    }
  }

  /** With no recycled node left, the highest node of the free and used lists is the last record created. */
  lemma HighestOfTwo(keys: set<u32>, free: seq<u32>, used: seq<u32>, count: nat, highest: u32)
    requires Separate(keys, free, used, [], [], count)
    requires highest in free || highest in used
    requires forall i :: 0 <= i < |free| ==> free[i] <= highest
    requires forall i :: 0 <= i < |used| ==> used[i] <= highest
    ensures highest == NodeAddr(count - 1)
  {
    assert Placed(highest, keys, free, used, [], []);
    ArenaBounds(count);
    assert NodeAddr(count - 1) in Arena(count);
    assert NodeAddr(count - 1) in keys;
    assert Placed(NodeAddr(count - 1), keys, free, used, [], []);
  }

  // ---------------------------------------------------------------- the records a list holds

  function BlockAt(mem: Memory, a: u32): Block {
    if a in mem then Block(mem[a].virtAddr, mem[a].size) else Block(0, 0)
  }

  function BlocksOf(mem: Memory, s: seq<u32>): seq<Block> {
    seq(|s|, i requires 0 <= i < |s| => BlockAt(mem, s[i]))
  }

  lemma LinksKeepBlocks(mem: Memory, mem': Memory, touched: seq<u32>, s: seq<u32>)
    requires OnlyLinks(mem, mem', touched)
    ensures BlocksOf(mem', s) == BlocksOf(mem, s)
  {
  }

  lemma RecordsKeepBlocks(mem: Memory, mem': Memory, first: u32, last: u32, s: seq<u32>)
    requires IsList(mem, first, last, s) && SameOutside(mem, mem', [])
    ensures BlocksOf(mem', s) == BlocksOf(mem, s)
  {
    forall i | 0 <= i < |s|
      ensures BlockAt(mem', s[i]) == BlockAt(mem, s[i])
    {
      assert LinkedList.Linked(mem, s, i);
    }
  }

  lemma BlocksInsert(mem: Memory, s: seq<u32>, i: nat, a: u32)
    requires i <= |s|
    ensures BlocksOf(mem, InsertAt(s, i, a)) == Insert(BlocksOf(mem, s), i, BlockAt(mem, a))
  {
  }

  lemma BlocksRemove(mem: Memory, s: seq<u32>, i: nat)
    requires i < |s|
    ensures BlocksOf(mem, RemoveAt(s, i)) == Delete(BlocksOf(mem, s), i)
  {
  }

  lemma BlocksWrite(mem: Memory, s: seq<u32>, a: u32, virtAddr: u32, size: u32)
    requires a in mem
    ensures var mem' := mem[a := mem[a].(virtAddr := virtAddr, size := size)];
            && BlockAt(mem', a) == Block(virtAddr, size)
            && (a !in s ==> BlocksOf(mem', s) == BlocksOf(mem, s))
            && (forall k :: 0 <= k < |s| && s[k] == a && Distinct(s) ==>
                  BlocksOf(mem', s) == BlocksOf(mem, s)[k := Block(virtAddr, size)])
  {
    var mem' := mem[a := mem[a].(virtAddr := virtAddr, size := size)];
    forall k | 0 <= k < |s| && s[k] == a && Distinct(s)
      ensures BlocksOf(mem', s) == BlocksOf(mem, s)[k := Block(virtAddr, size)]
    {
      forall j | 0 <= j < |s| && j != k
        ensures s[j] != a
      {
        assert Differ(s, j, k) || Differ(s, k, j);
      }
    }
  }

  /** A free block lies beyond used block `k`, and putting `k` in front of it keeps the free list in order. */
  ghost predicate Freeable(v: State, k: nat) {
    && k < |v.used| && FirstBeyond(v.free, v.used[k].base) < |v.free|
    && Ordered(Insert(v.free, FirstBeyond(v.free, v.used[k].base), v.used[k]))
    && Within(Insert(v.free, FirstBeyond(v.free, v.used[k].base), v.used[k]), 0, WINDOW)
  }

  lemma UsedIsFreeable(v: State, managed: iset<int>, k: nat)
    requires Inv(v, managed) && k < |v.used|
    ensures Freeable(v, k)
  {
    FreeBlockAboveEveryUsedBlock(v, managed, k);
    InsertedIsOrdered(v, managed, k);
  }

  /** Two cuts and one move amount to what the model's allocation step describes. */
  lemma TakenPiece(v: State, size: u32, i: nat, gap: bool)
    requires i < |v.free|
    ensures var b := v.free[i];
            var r := Rest(b, size);
            var once := Insert(v.free[i := Head(b, size)], i + 1, r);
            var twice := Insert(once[i + 1 := Head(r, size)], i + 2, Rest(r, size));
            && TakeFrom(v, size, i, false) == Outcome(State(Delete(once, i), v.used + [once[i]]), b.base)
            && TakeFrom(v, size, i, true) == Outcome(State(Delete(twice, i + 1), v.used + [twice[i + 1]]), r.base)
  {
  }

  // ---------------------------------------------------------------- what initialization finds

  /** A directory and the tables its entries lead to, as read through the recursive window. */
  datatype Tables = Tables(pd: seq<u32>, pt: seq<seq<u32>>) {
    predicate Valid() {
      |pd| == 1024 && |pt| == 1024 && forall i :: 0 <= i < 1024 ==> |pt[i]| == 1024
    }

    /** Bit 0 of the directory entry, or of the table entry it leads to, is clear. */
    predicate Unmapped(a: int)
      requires Valid()
    {
      0 <= a < WORD && (pd[a / SPAN] % 2 == 0 || pt[a / SPAN][a / PAGE % 1024] % 2 == 0)
    }
  }

  /** `s` is the canonical list of the unmapped addresses below `pos`. */
  ghost predicate Collected(s: seq<Block>, t: Tables, pos: nat)
    requires t.Valid()
  {
    Canonical(s) && Within(s, 0, pos) && forall a :: Covers(s, a) <==> a < pos && t.Unmapped(a)
  }

  /** The turn of the loops that reads entry `j` of table `i`, or, if there is none, entry `i` of the directory,
      adds a block to the free list. */
  predicate Adds(t: Tables, i: nat, j: nat)
    requires t.Valid() && i < 1023 && j < 1024
  {
    if t.pd[i] % 2 == 0 then j == 0 else t.pt[i][j] % 2 == 0
  }

  /** That turn adds a block, and `s` is the free list before it. */
  ghost predicate AddsTo(s: seq<Block>, t: Tables, i: nat, j: nat)
    requires t.Valid()
  {
    i < 1023 && j < 1024 && Adds(t, i, j) && Collected(s, t, i * SPAN + j * PAGE)
  }

  predicate Before(i': nat, j': nat, i: nat, j: nat) {
    i' < i || (i' == i && j' < j)
  }

  /** Before the turn of table `i`, entry `j`, `count` is the most blocks the free list ever held, counted before
      each coalescing. */
  ghost predicate MostCollected(count: nat, t: Tables, i: nat, j: nat)
    requires t.Valid()
  {
    && (forall s: seq<Block>, i': nat, j': nat :: AddsTo(s, t, i', j') && Before(i', j', i, j) ==> |s| + 1 <= count)
    && (count == 0 || exists s: seq<Block>, i': nat, j': nat ::
                        AddsTo(s, t, i', j') && Before(i', j', i, j) && count == |s| + 1)
  }

  lemma CollectedIsUnique(s: seq<Block>, s': seq<Block>, t: Tables, pos: nat)
    requires t.Valid() && Collected(s, t, pos) && Collected(s', t, pos)
    ensures s == s'
  {
    assert forall a :: a in Addrs(s) <==> a in Addrs(s');
    CanonicalIsUnique(s, s');
  }

  lemma OneMoreTurn(count: nat, t: Tables, i: nat, j: nat, s: seq<Block>)
    requires t.Valid() && i < 1023 && j < 1024 && MostCollected(count, t, i, j)
    requires Collected(s, t, i * SPAN + j * PAGE)
    ensures MostCollected(if Adds(t, i, j) then Max(count, |s| + 1) else count, t, i, j + 1)
  {
    var count' := if Adds(t, i, j) then Max(count, |s| + 1) else count;
    forall s': seq<Block>, i': nat, j': nat | AddsTo(s', t, i', j') && Before(i', j', i, j + 1)
      ensures |s'| + 1 <= count'
    {
      if i' == i && j' == j {
        CollectedIsUnique(s, s', t, i * SPAN + j * PAGE);
      } else {
        assert Before(i', j', i, j);
      }
    }
    if count' == count && count != 0 {
      var s': seq<Block>, i': nat, j': nat :| AddsTo(s', t, i', j') && Before(i', j', i, j) && count == |s'| + 1;
      assert Before(i', j', i, j + 1);
    } else if count' != 0 {
      assert AddsTo(s, t, i, j);
    }
  }

  lemma NextTable(count: nat, t: Tables, i: nat, j: nat)
    requires t.Valid() && i < 1023 && MostCollected(count, t, i, j)
    requires if t.pd[i] % 2 == 0 then j == 1 else j == 1024
    ensures MostCollected(count, t, i + 1, 0)
  {
    forall s: seq<Block>, i': nat, j': nat | AddsTo(s, t, i', j') && Before(i', j', i + 1, 0)
      ensures |s| + 1 <= count
    {
      assert Before(i', j', i, j);
    }
    if count != 0 {
      var s: seq<Block>, i': nat, j': nat :| AddsTo(s, t, i', j') && Before(i', j', i, j) && count == |s| + 1;
      assert Before(i', j', i + 1, 0);
    }
  }

  lemma AppendIsOrdered(s: seq<Block>, pos: nat, n: nat)
    requires Canonical(s) && Within(s, 0, pos) && 1 <= n
    ensures Ordered(s + [Block(pos, n)]) && Within(s + [Block(pos, n)], 0, pos + n)
  {
  }

  lemma CollectBlock(s: seq<Block>, t: Tables, pos: nat, n: nat)
    requires t.Valid() && Collected(s, t, pos) && 1 <= n
    requires forall a :: pos <= a < pos + n ==> t.Unmapped(a)
    ensures Collected(Compact(s + [Block(pos, n)]), t, pos + n)
  {
    var s' := s + [Block(pos, n)];
    AppendIsOrdered(s, pos, n);
    CompactIsCanonicalForm(s');
    CompactStaysWithin(s', 0, pos + n);
    AppendAddrs(s, Block(pos, n));
    forall a
      ensures Covers(Compact(s'), a) <==> a < pos + n && t.Unmapped(a)
    {
      assert a in Addrs(Compact(s')) <==> a in Addrs(s) || a in Span(Block(pos, n));
    }
  }

  lemma CollectNothing(s: seq<Block>, t: Tables, pos: nat, n: nat)
    requires t.Valid() && Collected(s, t, pos)
    requires forall a :: pos <= a < pos + n ==> !t.Unmapped(a)
    ensures Collected(s, t, pos + n)
  {
  }

  /** Before the turn of table `i`, entry `j`: nothing is used, the free list is collected so far. */
  ghost predicate Progress(v: State, count: nat, t: Tables, i: nat, j: nat)
    requires t.Valid()
  {
    && v.used == [] && count <= i * 1024 + j && i * 1024 + j <= 1023 * 1024
    && Collected(v.free, t, i * SPAN + j * PAGE) && MostCollected(count, t, i, j)
  }

  lemma PageIsUnmapped(t: Tables, i: nat, j: nat)
    requires t.Valid() && i < 1023 && j < 1024 && t.pd[i] % 2 != 0
    ensures forall a :: i * SPAN + j * PAGE <= a < i * SPAN + (j + 1) * PAGE ==>
              (t.Unmapped(a) <==> t.pt[i][j] % 2 == 0)
  {
    forall a | i * SPAN + j * PAGE <= a < i * SPAN + (j + 1) * PAGE
      ensures t.Unmapped(a) <==> t.pt[i][j] % 2 == 0
    {
      TableIndex(i, j, a);
    }
  }

  lemma EntryIsUnmapped(t: Tables, i: nat)
    requires t.Valid() && i < 1023 && t.pd[i] % 2 == 0
    ensures forall a :: i * SPAN <= a < (i + 1) * SPAN ==> t.Unmapped(a)
  {
    forall a | i * SPAN <= a < (i + 1) * SPAN
      ensures t.Unmapped(a)
    {
      TableIndex(i, 0, a);
    }
  }

  lemma TableIndex(i: nat, j: nat, a: int)
    requires i < 1024 && j < 1024
    ensures i * SPAN <= a < (i + 1) * SPAN ==> 0 <= a < WORD && a / SPAN == i
    ensures i * SPAN + j * PAGE <= a < i * SPAN + (j + 1) * PAGE ==>
              0 <= a < WORD && a / SPAN == i && a / PAGE % 1024 == j
  {
  }

  // ---------------------------------------------------------------- counting up to a suitable address

  /** What `++` makes of a 32-bit counter. */
  function Next(a: u32): u32 {
    if a + 1 < WORD then a + 1 else 0
  }

  /** How often `++` was applied on the way from `base` to `a`. */
  function Steps(base: u32, a: u32): (n: u32)
    ensures n == Wrap(a - base)
  {
    if base <= a then a - base else a - base + WORD
  }

  /** The counter is on its way up to the multiple `start` of `align`, or has wrapped to 0 because `start` does
      not fit 32 bits. */
  predicate Counting(start: nat, align: u32, a: u32)
    requires 1 <= align
  {
    if a == 0 then start == 0 || WORD <= start else AlignUp(a, align) == start
  }

  function StepsLeft(a: u32): nat {
    if a == 0 then 0 else WORD - a
  }

  lemma CountOn(start: nat, align: u32, a: u32)
    requires 1 <= align && a != 0 && a % align != 0 && Counting(start, align, a)
    ensures Counting(start, align, Next(a))
  {
    AlignUpStep(a, align);
  }

  lemma CountedUp(start: nat, align: u32, a: u32)
    requires 1 <= align && a % align == 0 && Counting(start, align, a)
    ensures a == if start < WORD then start else 0
  {
    AlignUpIsLeast(a, align);
  }

  class Vmm {
    const heap: Heap
    const freeList: List
    const usedList: List
    const unusedList: List

    ghost var count: nat           // how many nodes were ever created
    ghost var managed: iset<int>   // the addresses managed since initialization

    // -------------------------------------------------------------- invariants

    ghost predicate Headers()
      reads this
    {
      && freeList != usedList && freeList != unusedList && usedList != unusedList
      && freeList.heap == heap && usedList.heap == heap && unusedList.heap == heap
    }

    ghost predicate Linked(held: seq<u32>)
      reads this, heap, freeList, usedList, unusedList
    {
      && Headers()
      && freeList.Valid() && usedList.Valid() && unusedList.Valid()
      && Separate(heap.mem.Keys, freeList.nodes, usedList.nodes, unusedList.nodes, held, count)
    }

    ghost function View(): State
      reads heap, freeList, usedList
    {
      State(BlocksOf(heap.mem, freeList.nodes), BlocksOf(heap.mem, usedList.nodes))
    }

    ghost predicate Valid()
      reads this, heap, freeList, usedList, unusedList
    {
      Linked([]) && Inv(View(), managed)
    }

    /** Links written inside list `l` leave the other lists and all data records as they were in `mem`. */
    lemma Relinked(mem: Memory, l: List, held: seq<u32>)
      requires Headers() && (l == freeList || l == usedList || l == unusedList) && l.Valid()
      requires OnlyLinks(mem, heap.mem, l.nodes)
      requires l != freeList ==> freeList.ValidIn(mem)
      requires l != usedList ==> usedList.ValidIn(mem)
      requires l != unusedList ==> unusedList.ValidIn(mem)
      requires Separate(mem.Keys, freeList.nodes, usedList.nodes, unusedList.nodes, held, count)
      ensures Linked(held)
      ensures BlocksOf(heap.mem, freeList.nodes) == BlocksOf(mem, freeList.nodes)
      ensures BlocksOf(heap.mem, usedList.nodes) == BlocksOf(mem, usedList.nodes)
    {
      ListsDisjoint(mem.Keys, freeList.nodes, usedList.nodes, unusedList.nodes, held, count);
      if l != freeList {
        DisjointListKept(mem, heap.mem, l.nodes, freeList.first, freeList.last, freeList.nodes);
      }
      if l != usedList {
        DisjointListKept(mem, heap.mem, l.nodes, usedList.first, usedList.last, usedList.nodes);
      }
      if l != unusedList {
        DisjointListKept(mem, heap.mem, l.nodes, unusedList.first, unusedList.last, unusedList.nodes);
      }
      LinksKeepBlocks(mem, heap.mem, l.nodes, freeList.nodes);
      LinksKeepBlocks(mem, heap.mem, l.nodes, usedList.nodes);
    }

    // -------------------------------------------------------------- nodes

    /** A fresh record right behind the arena. */
    method CreateNode(a: u32)
      requires Linked([]) && a == NodeAddr(count)
      modifies this`count, heap
      ensures Linked([a]) && View() == old(View()) && count == old(count) + 1
    {
      ghost var mem0 := heap.mem;
      NodeGrown(mem0.Keys, freeList.nodes, usedList.nodes, unusedList.nodes, count, a);
      heap.Create(a);
      count := count + 1;
      assert heap.mem.Keys == mem0.Keys + {a};
      DisjointListKept(mem0, heap.mem, [], freeList.first, freeList.last, freeList.nodes);
      DisjointListKept(mem0, heap.mem, [], usedList.first, usedList.last, usedList.nodes);
      DisjointListKept(mem0, heap.mem, [], unusedList.first, unusedList.last, unusedList.nodes);
      RecordsKeepBlocks(mem0, heap.mem, freeList.first, freeList.last, freeList.nodes);
      RecordsKeepBlocks(mem0, heap.mem, usedList.first, usedList.last, usedList.nodes);
    }

    method GetUnusedNode() returns (result: u32)
      requires Linked([]) && (unusedList.nodes == [] ==> Room(count, 1))
      modifies this`count, heap, unusedList
      ensures Linked([result]) && View() == old(View())
      ensures result != 0 && result !in freeList.nodes && result !in usedList.nodes && result !in unusedList.nodes
      ensures old(unusedList.nodes) != [] ==> count == old(count) && result == old(unusedList.nodes[0])
      ensures old(unusedList.nodes) == [] ==> count == old(count) + 1 && result == NodeAddr(old(count))
    {
      ghost var mem0 := heap.mem;
      assert unusedList.nodes != [] ==> LinkedList.Linked(mem0, unusedList.nodes, 0);
      assert freeList.nodes != [] ==> LinkedList.Linked(mem0, freeList.nodes, 0);
      assert usedList.nodes != [] ==> LinkedList.Linked(mem0, usedList.nodes, 0);
      if unusedList.first != 0 {
        result := unusedList.first;
        UnusedToHeld(mem0.Keys, freeList.nodes, usedList.nodes, unusedList.nodes, count, 0);
        unusedList.Remove(unusedList.first, 0);
        Relinked(mem0, unusedList, [result]);
      } else if freeList.first == 0 && usedList.first == 0 {
        result := FIRST_NODE;
        CreateNode(result);
      } else {
        var highest := freeList.HighestNode();
        var highestUsed := usedList.HighestNode();
        if highestUsed > highest {
          highest := highestUsed;
        }
        HighestOfTwo(mem0.Keys, freeList.nodes, usedList.nodes, count, highest);
        result := highest + LIST_BYTES + NODE_BYTES;
        CreateNode(result);
      }
      ListsDisjoint(heap.mem.Keys, freeList.nodes, usedList.nodes, unusedList.nodes, [result], count);
    }

    // -------------------------------------------------------------- data records

    method SetNode(a: u32, virtAddr: u32, size: u32, ghost held: seq<u32>)
      requires Linked(held) && a in heap.mem
      modifies heap
      ensures Linked(held) && heap.mem == old(heap.mem)[a := old(heap.mem)[a].(virtAddr := virtAddr, size := size)]
    {
      ghost var mem0 := heap.mem;
      heap.SetData(a, virtAddr, size);
      DataIsNotLinks(mem0, heap.mem, freeList.first, freeList.last, freeList.nodes);
      DataIsNotLinks(mem0, heap.mem, usedList.first, usedList.last, usedList.nodes);
      DataIsNotLinks(mem0, heap.mem, unusedList.first, unusedList.last, unusedList.nodes);
      assert heap.mem.Keys == mem0.Keys;
    }

    // -------------------------------------------------------------- splitting

    lemma FreeNode(held: seq<u32>, k: nat)
      requires Linked(held) && k < |freeList.nodes|
      ensures var a := freeList.nodes[k];
              && a != 0 && a in heap.mem && View().free[k] == Block(heap.mem[a].virtAddr, heap.mem[a].size)
              && heap.mem[a].next == At(freeList.nodes, k + 1)
              && (k + 1 < |freeList.nodes| ==> freeList.nodes[k + 1] != 0)
    {
      assert LinkedList.Linked(heap.mem, freeList.nodes, k);
      assert k + 1 < |freeList.nodes| ==> LinkedList.Linked(heap.mem, freeList.nodes, k + 1);
    }

    lemma UsedNode(held: seq<u32>, k: nat)
      requires Linked(held) && k < |usedList.nodes|
      ensures var a := usedList.nodes[k];
              && a != 0 && a in heap.mem && View().used[k] == Block(heap.mem[a].virtAddr, heap.mem[a].size)
              && heap.mem[a].next == At(usedList.nodes, k + 1)
              && (k + 1 < |usedList.nodes| ==> usedList.nodes[k + 1] != 0)
    {
      assert LinkedList.Linked(heap.mem, usedList.nodes, k);
      assert k + 1 < |usedList.nodes| ==> LinkedList.Linked(heap.mem, usedList.nodes, k + 1);
    }

    /** The data record of the free node at position `k`. */
    method GetData(node: u32, ghost held: seq<u32>, ghost k: nat) returns (virtAddr: u32, size: u32)
      requires Linked(held) && k < |freeList.nodes| && freeList.nodes[k] == node
      ensures View().free[k] == Block(virtAddr, size) && [node] != held
    {
      assert LinkedList.Linked(heap.mem, freeList.nodes, k);
      ListsDisjoint(heap.mem.Keys, freeList.nodes, usedList.nodes, unusedList.nodes, held, count);
      virtAddr, size := heap.mem[node].virtAddr, heap.mem[node].size;
    }

    method SetData(a: u32, virtAddr: u32, size: u32, ghost held: seq<u32>, ghost k: nat)
      requires Linked(held)
      requires a in held || (k < |freeList.nodes| && a == freeList.nodes[k])
      modifies heap
      ensures Linked(held) && BlockAt(heap.mem, a) == Block(virtAddr, size)
      ensures View().used == old(View().used)
      ensures View().free == if a in held then old(View().free) else old(View().free)[k := Block(virtAddr, size)]
      ensures forall x :: x in held && x != a ==> BlockAt(heap.mem, x) == old(BlockAt(heap.mem, x))
    {
      ghost var mem0 := heap.mem;
      ListsDisjoint(mem0.Keys, freeList.nodes, usedList.nodes, unusedList.nodes, held, count);
      assert NotBoth(a, freeList.nodes, usedList.nodes);
      assert k < |freeList.nodes| ==> LinkedList.Linked(mem0, freeList.nodes, k);
      SetNode(a, virtAddr, size, held);
      BlocksWrite(mem0, freeList.nodes, a, virtAddr, size);
      BlocksWrite(mem0, usedList.nodes, a, virtAddr, size);
    }

    // -------------------------------------------------------------- searches

    method SearchFree(size: u32, above: u32) returns (result: u32)
      requires Linked([]) && freeList.nodes != [] && Within(View().free, 0, WINDOW)
      ensures result == At(freeList.nodes, FirstFit(View().free, size, above))
    {
      result := 0;
      var candidate := freeList.first;
      ghost var i, blocks, nodes := 0, View().free, freeList.nodes;
      FreeNode([], 0);
      while candidate != 0
        invariant 0 <= i <= |nodes| && candidate == At(nodes, i)
        invariant i < |nodes| ==> candidate != 0
        invariant i <= FirstFit(blocks, size, above)
        decreases |nodes| - i
      {
        FreeNode([], i);
        var end: u32 := heap.mem[candidate].virtAddr + heap.mem[candidate].size;
        if ((heap.mem[candidate].virtAddr <= above && end > above) || heap.mem[candidate].virtAddr >= above)
           && heap.mem[candidate].size >= size {
          assert Fits(blocks[i], size, above);
          result := candidate;
          return;
        }
        assert !Fits(blocks[i], size, above);
        candidate := heap.mem[candidate].next;
        i := i + 1;
      }
    }

    method SearchUsed(virtAddr: u32) returns (result: u32)
      requires Linked([]) && usedList.nodes != []
      ensures result == At(usedList.nodes, FirstAt(View().used, virtAddr))
      ensures FirstAt(View().used, virtAddr) < |usedList.nodes| ==> result != 0
    {
      result := 0;
      var candidate := usedList.first;
      ghost var i, blocks, nodes := 0, View().used, usedList.nodes;
      UsedNode([], 0);
      while candidate != 0
        invariant 0 <= i <= |nodes| && candidate == At(nodes, i)
        invariant i < |nodes| ==> candidate != 0
        invariant i <= FirstAt(blocks, virtAddr)
        decreases |nodes| - i
      {
        UsedNode([], i);
        if heap.mem[candidate].virtAddr == virtAddr {
          result := candidate;
          return;
        }
        assert blocks[i].base != virtAddr;
        candidate := heap.mem[candidate].next;
        i := i + 1;
      }
    }

    method SearchFreeNeighbor(node: u32) returns (result: u32)
      requires Linked([]) && freeList.nodes != [] && node in heap.mem
      ensures result == At(freeList.nodes, FirstBeyond(View().free, heap.mem[node].virtAddr))
    {
      result := 0;
      var candidate := freeList.first;
      ghost var i, blocks, nodes := 0, View().free, freeList.nodes;
      FreeNode([], 0);
      while candidate != 0
        invariant 0 <= i <= |nodes| && candidate == At(nodes, i)
        invariant i < |nodes| ==> candidate != 0
        invariant i <= FirstBeyond(blocks, heap.mem[node].virtAddr)
        decreases |nodes| - i
      {
        FreeNode([], i);
        if heap.mem[candidate].virtAddr > heap.mem[node].virtAddr {
          result := candidate;
          return;
        }
        assert blocks[i].base <= heap.mem[node].virtAddr;
        candidate := heap.mem[candidate].next;
        i := i + 1;
      }
    }

    // -------------------------------------------------------------- moving nodes between lists

    method InsertFreeAfter(node: u32, newNode: u32, ghost k: nat)
      requires Linked([newNode]) && k < |freeList.nodes| && freeList.nodes[k] == node
      modifies heap, freeList
      ensures Linked([])
      ensures freeList.nodes == InsertAt(old(freeList.nodes), k + 1, newNode)
      ensures View() == State(Insert(old(View().free), k + 1, old(BlockAt(heap.mem, newNode))), old(View().used))
    {
      ghost var mem0, free0 := heap.mem, freeList.nodes;
      ListsDisjoint(mem0.Keys, free0, usedList.nodes, unusedList.nodes, [newNode], count);
      HeldToFree(mem0.Keys, free0, usedList.nodes, unusedList.nodes, count, k + 1, newNode);
      freeList.InsertAfter(node, newNode, k);
      Relinked(mem0, freeList, []);
      BlocksInsert(mem0, free0, k + 1, newNode);
    }

    method InsertFreeBefore(node: u32, newNode: u32, ghost k: nat)
      requires Linked([newNode]) && k < |freeList.nodes| && freeList.nodes[k] == node
      modifies heap, freeList
      ensures Linked([])
      ensures freeList.nodes == InsertAt(old(freeList.nodes), k, newNode)
      ensures View() == State(Insert(old(View().free), k, old(BlockAt(heap.mem, newNode))), old(View().used))
    {
      ghost var mem0, free0 := heap.mem, freeList.nodes;
      ListsDisjoint(mem0.Keys, free0, usedList.nodes, unusedList.nodes, [newNode], count);
      HeldToFree(mem0.Keys, free0, usedList.nodes, unusedList.nodes, count, k, newNode);
      freeList.InsertBefore(node, newNode, k);
      Relinked(mem0, freeList, []);
      BlocksInsert(mem0, free0, k, newNode);
    }

    method InsertFreeLast(newNode: u32)
      requires Linked([newNode])
      modifies heap, freeList
      ensures Linked([])
      ensures freeList.nodes == old(freeList.nodes) + [newNode]
      ensures View() == State(old(View().free) + [old(BlockAt(heap.mem, newNode))], old(View().used))
    {
      ghost var mem0, free0 := heap.mem, freeList.nodes;
      ListsDisjoint(mem0.Keys, free0, usedList.nodes, unusedList.nodes, [newNode], count);
      HeldToFree(mem0.Keys, free0, usedList.nodes, unusedList.nodes, count, |free0|, newNode);
      freeList.InsertLast(newNode);
      assert freeList.nodes == InsertAt(free0, |free0|, newNode);
      Relinked(mem0, freeList, []);
      BlocksInsert(mem0, free0, |free0|, newNode);
    }

    method InsertUsedLast(newNode: u32)
      requires Linked([newNode])
      modifies heap, usedList
      ensures Linked([])
      ensures usedList.nodes == old(usedList.nodes) + [newNode]
      ensures View() == State(old(View().free), old(View().used) + [old(BlockAt(heap.mem, newNode))])
    {
      ghost var mem0, used0 := heap.mem, usedList.nodes;
      ListsDisjoint(mem0.Keys, freeList.nodes, used0, unusedList.nodes, [newNode], count);
      HeldToUsed(mem0.Keys, freeList.nodes, used0, unusedList.nodes, count, |used0|, newNode);
      usedList.InsertLast(newNode);
      assert usedList.nodes == InsertAt(used0, |used0|, newNode);
      Relinked(mem0, usedList, []);
      BlocksInsert(mem0, used0, |used0|, newNode);
    }

    method InsertUnusedLast(newNode: u32)
      requires Linked([newNode])
      modifies heap, unusedList
      ensures Linked([]) && View() == old(View())
      ensures unusedList.nodes == old(unusedList.nodes) + [newNode]
    {
      ghost var mem0, unused0 := heap.mem, unusedList.nodes;
      ListsDisjoint(mem0.Keys, freeList.nodes, usedList.nodes, unused0, [newNode], count);
      HeldToUnused(mem0.Keys, freeList.nodes, usedList.nodes, unused0, count, |unused0|, newNode);
      unusedList.InsertLast(newNode);
      assert unusedList.nodes == InsertAt(unused0, |unused0|, newNode);
      Relinked(mem0, unusedList, []);
    }

    method RemoveFree(node: u32, ghost k: nat)
      requires Linked([]) && k < |freeList.nodes| && freeList.nodes[k] == node
      modifies heap, freeList
      ensures Linked([node]) && freeList.nodes == RemoveAt(old(freeList.nodes), k)
      ensures View() == State(Delete(old(View().free), k), old(View().used))
      ensures BlockAt(heap.mem, node) == old(View().free[k])
    {
      ghost var mem0, free0 := heap.mem, freeList.nodes;
      FreeToHeld(mem0.Keys, free0, usedList.nodes, unusedList.nodes, count, k);
      freeList.Remove(node, k);
      Relinked(mem0, freeList, [node]);
      BlocksRemove(mem0, free0, k);
      LinksKeepBlocks(mem0, heap.mem, freeList.nodes, [node]);
      assert BlocksOf(heap.mem, [node])[0] == BlocksOf(mem0, [node])[0];
    }

    method RemoveUsed(node: u32, ghost k: nat)
      requires Linked([]) && k < |usedList.nodes| && usedList.nodes[k] == node
      modifies heap, usedList
      ensures Linked([node]) && usedList.nodes == RemoveAt(old(usedList.nodes), k)
      ensures View() == State(old(View().free), Delete(old(View().used), k))
      ensures BlockAt(heap.mem, node) == old(View().used[k])
    {
      ghost var mem0, used0 := heap.mem, usedList.nodes;
      UsedToHeld(mem0.Keys, freeList.nodes, used0, unusedList.nodes, count, k);
      usedList.Remove(node, k);
      Relinked(mem0, usedList, [node]);
      BlocksRemove(mem0, used0, k);
      LinksKeepBlocks(mem0, heap.mem, usedList.nodes, [node]);
      assert BlocksOf(heap.mem, [node])[0] == BlocksOf(mem0, [node])[0];
    }

    // -------------------------------------------------------------- splitting and coalescing

    method SplitFree(node: u32, size: u32, ghost k: nat) returns (result: u32)
      requires Linked([]) && (unusedList.nodes == [] ==> Room(count, 1))
      requires k < |freeList.nodes| && freeList.nodes[k] == node
      modifies this`count, heap, freeList, unusedList
      ensures Linked([]) && count == Max(old(count), |View().free| + |View().used|) <= old(count) + 1
      ensures result == node && |freeList.nodes| == |old(freeList.nodes)| + 1 && freeList.nodes[k] == node
      ensures View() == State(Insert(old(View().free)[k := Head(old(View().free[k]), size)],
                                     k + 1, Rest(old(View().free[k]), size)), old(View().used))
    {
      var newNode := GetUnusedNode();
      CutNode(node, newNode, size, k);
      InsertFreeAfter(node, newNode, k);
      result := node;
    }

    /** Shorten the free node at position `k` to `size` and describe what is left in `newNode`. */
    method CutNode(node: u32, newNode: u32, size: u32, ghost k: nat)
      requires Linked([newNode]) && k < |freeList.nodes| && freeList.nodes[k] == node
      modifies heap
      ensures Linked([newNode])
      ensures View() == State(old(View().free)[k := Head(old(View().free[k]), size)], old(View().used))
      ensures BlockAt(heap.mem, newNode) == Rest(old(View().free[k]), size)
    {
      var virtAddr, oldSize := GetData(node, [newNode], k);
      SetData(newNode, Wrap(virtAddr + size), Wrap(oldSize - size), [newNode], k);
      SetData(node, virtAddr, size, [newNode], k);
    }

    /** What the code reads of a free node and its successor; the sums it forms do not wrap. */
    lemma NextFreeNode(k: nat)
      requires Linked([]) && Within(View().free, 0, WINDOW) && k < |freeList.nodes|
      ensures var a, n := freeList.nodes[k], At(freeList.nodes, k + 1);
              && a in heap.mem && heap.mem[a].next == n && heap.mem[a].virtAddr + heap.mem[a].size <= WINDOW
              && (n == 0 <==> k + 1 == |freeList.nodes|) && (n != 0 ==> n in heap.mem)
              && (AdjacentAt(View().free, k) <==>
                    n != 0 && heap.mem[a].virtAddr + heap.mem[a].size == heap.mem[n].virtAddr)
    {
      FreeNode([], k);
      if k + 1 < |freeList.nodes| {
        FreeNode([], k + 1);
      }
    }

    /** What one turn of the loop of `search_adjacent_free` finds out. */
    lemma AdjacentTurn(k: nat)
      requires Linked([]) && Within(View().free, 0, WINDOW) && k < |freeList.nodes|
      requires k <= FirstAdjacent(View().free, 0)
      ensures var a, n := freeList.nodes[k], At(freeList.nodes, k + 1);
              && a in heap.mem && heap.mem[a].next == n && (n == 0 <==> k + 1 == |freeList.nodes|)
              && (n != 0 ==> n in heap.mem)
              && (if n != 0 && heap.mem[a].virtAddr + heap.mem[a].size == heap.mem[n].virtAddr
                  then FirstAdjacent(View().free, 0) == k else k < FirstAdjacent(View().free, 0))
    {
      NextFreeNode(k);
      FirstAdjacentFrom(View().free, k);
    }

    method SearchAdjacentFree() returns (result: u32)
      requires Linked([]) && freeList.nodes != [] && Within(View().free, 0, WINDOW)
      ensures result == At(freeList.nodes, FirstAdjacent(View().free, 0))
      ensures FirstAdjacent(View().free, 0) < |freeList.nodes| ==> result != 0
    {
      result := 0;
      var candidate := freeList.first;
      ghost var i, blocks, nodes := 0, View().free, freeList.nodes;
      FreeNode([], 0);
      while candidate != 0
        invariant 0 <= i <= |nodes| && candidate == At(nodes, i)
        invariant i < |nodes| ==> candidate != 0
        invariant i <= FirstAdjacent(blocks, 0)
        decreases |nodes| - i
      {
        AdjacentTurn(i);
        if heap.mem[candidate].next != 0 {
          if heap.mem[candidate].virtAddr + heap.mem[candidate].size == heap.mem[heap.mem[candidate].next].virtAddr {
            result := candidate;
            return;
          }
        }
        candidate := heap.mem[candidate].next;
        i := i + 1;
      }
    }

    /** Give node `k` the size of both, and put its successor away for reuse. */
    method AbsorbNext(node: u32, nextNode: u32, virtAddr: u32, newSize: u32, ghost k: nat)
      requires Linked([]) && k + 1 < |freeList.nodes| && freeList.nodes[k] == node && freeList.nodes[k + 1] == nextNode
      modifies heap, freeList, unusedList
      ensures Linked([]) && freeList.nodes == RemoveAt(old(freeList.nodes), k + 1)
      ensures unusedList.nodes == old(unusedList.nodes) + [old(freeList.nodes)[k + 1]]
      ensures View() == State(Delete(old(View().free)[k := Block(virtAddr, newSize)], k + 1), old(View().used))
    {
      SetData(node, virtAddr, newSize, [], k);
      RemoveFree(nextNode, k + 1);
      InsertUnusedLast(nextNode);
    }

    method CompactAfter(node: u32, ghost k: nat)
      requires Linked([]) && k + 1 < |freeList.nodes| && freeList.nodes[k] == node
      requires View().free[k].size + View().free[k + 1].size < WORD
      modifies heap, freeList, unusedList
      ensures Linked([]) && freeList.nodes == RemoveAt(old(freeList.nodes), k + 1)
      ensures unusedList.nodes == old(unusedList.nodes) + [old(freeList.nodes)[k + 1]]
      ensures View() == State(Merge(old(View().free), k), old(View().used))
    {
      FreeNode([], k);
      MergeByDeleting(View().free, k);
      var nextNode := heap.mem[node].next;
      var virtAddr, size := GetData(node, [], k);
      var nextAddr, nextSize := GetData(nextNode, [], k + 1);
      AbsorbNext(node, nextNode, virtAddr, size + nextSize, k);
    }

    method CompactAllFree()
      requires Linked([]) && freeList.nodes != [] && Ordered(View().free) && Within(View().free, 0, WINDOW)
      modifies heap, freeList, unusedList
      ensures Linked([]) && freeList.nodes != []
      ensures View() == State(Compact(old(View().free)), old(View().used))
    {
      var node := SearchAdjacentFree();
      while node != 0
        invariant Linked([]) && freeList.nodes != [] && View().used == old(View().used)
        invariant Ordered(View().free) && Within(View().free, 0, WINDOW)
        invariant node == At(freeList.nodes, FirstAdjacent(View().free, 0))
        invariant FirstAdjacent(View().free, 0) < |freeList.nodes| ==> node != 0
        invariant Compact(View().free) == Compact(old(View().free))
        decreases |freeList.nodes|
      {
        ghost var k := FirstAdjacent(View().free, 0);
        MergeKeepsOrder(View().free, k);
        SizesAdd(View().free, k);
        CompactAfter(node, k);
        node := SearchAdjacentFree();
      }
    }

    // -------------------------------------------------------------- initialization

    /** Take a node for an unmapped stretch, put it at the end of the free list and coalesce. */
    method AddFree(virtAddr: u32, size: u32, ghost t: Tables)
      requires Linked([]) && Room(count, 1) && View().used == []
      requires t.Valid() && Collected(View().free, t, virtAddr) && 1 <= size && virtAddr + size <= WINDOW
      requires forall a :: virtAddr <= a < virtAddr + size ==> t.Unmapped(a)
      modifies this`count, heap, freeList, unusedList
      ensures Linked([]) && count == Max(old(count), |old(View().free)| + 1) <= old(count) + 1 && View().used == []
      ensures Collected(View().free, t, virtAddr + size)
    {
      ghost var v := View();
      var newNode := GetUnusedNode();
      SetData(newNode, virtAddr, size, [newNode], 0);
      InsertFreeLast(newNode);
      assert View() == State(v.free + [Block(virtAddr, size)], v.used);
      AppendIsOrdered(v.free, virtAddr, size);
      CompactAllFree();
      CollectBlock(v.free, t, virtAddr, size);
    }

    /** One turn of the inner loop. */
    method AddPage(i: nat, j: nat, t: Tables)
      requires i < 1023 && j < 1024 && t.Valid() && t.pd[i] % 2 != 0
      requires Linked([]) && Progress(View(), count, t, i, j)
      modifies this`count, heap, freeList, unusedList
      ensures Linked([]) && Progress(View(), count, t, i, j + 1)
    {
      ghost var free0, count0 := View().free, count;
      PageIsUnmapped(t, i, j);
      RoomLeft(count);
      if t.pt[i][j] % 2 == 0 {
        AddFree(i * SPAN + j * PAGE, PAGE, t);
      } else {
        CollectNothing(View().free, t, i * SPAN + j * PAGE, PAGE);
      }
      OneMoreTurn(count0, t, i, j, free0);
    }

    /** The inner loop: the pages of one table, entry by entry. */
    method AddTable(i: nat, t: Tables)
      requires i < 1023 && t.Valid() && t.pd[i] % 2 != 0
      requires Linked([]) && Progress(View(), count, t, i, 0)
      modifies this`count, heap, freeList, unusedList
      ensures Linked([]) && Progress(View(), count, t, i + 1, 0)
    {
      for j := 0 to 1024
        invariant Linked([]) && Progress(View(), count, t, i, j)
      {
        AddPage(i, j, t);
      }
      NextTable(count, t, i, 1024);
    }

    /** One turn of the outer loop. */
    method AddEntry(i: nat, t: Tables)
      requires i < 1023 && t.Valid()
      requires Linked([]) && Progress(View(), count, t, i, 0)
      modifies this`count, heap, freeList, unusedList
      ensures Linked([]) && Progress(View(), count, t, i + 1, 0)
    {
      if t.pd[i] % 2 == 0 {
        ghost var free0, count0 := View().free, count;
        EntryIsUnmapped(t, i);
        RoomLeft(count);
        AddFree(i * SPAN, SPAN, t);
        OneMoreTurn(count0, t, i, 0, free0);
        NextTable(count, t, i, 1);
      } else {
        AddTable(i, t);
      }
    }

    /** The free list ends up covering exactly the unmapped addresses below the recursive window. */
    constructor Initialize(t: Tables)
      requires t.Valid()
      ensures Valid() && View().used == [] && Room(count, 2)
      ensures Collected(View().free, t, WINDOW) && MostCollected(count, t, 1023, 0)
      ensures forall a :: a in managed <==> a < WINDOW && t.Unmapped(a)
    {
      var h := new Heap();
      heap := h;
      freeList := new List(h);
      usedList := new List(h);
      unusedList := new List(h);
      count, managed := 0, iset{};
      new;
      for i := 0 to 1023
        invariant fresh(heap) && fresh(freeList) && fresh(unusedList)
        invariant Linked([]) && Progress(View(), count, t, i, 0)
      {
        AddEntry(i, t);
      }
      RoomLeft(count);
      managed := Addrs(View().free);
      FreshInv(View().free);
    }

    // -------------------------------------------------------------- the public operations

    /** How far, modulo 2^32, the first suitable address lies beyond the start of a block. */
    static method SplitSize(base: u32, align: u32, above: u32) returns (splitSize: u32)
      requires 1 <= align
      ensures splitSize == Wrap(StartFor(base, align, above) - base)
      ensures splitSize > 0 <==> NeedsGap(base, align, above)
    {
      var startAddr: u32 := base;
      splitSize := 0;
      while startAddr < above
        invariant base <= startAddr <= Max(base, above) && splitSize == Steps(base, startAddr)
      {
        startAddr := Next(startAddr);
        splitSize := Next(splitSize);
      }
      startAddr, splitSize := CountUp(startAddr, splitSize, align, base);
    }

    /** The second of the two counting loops. */
    static method CountUp(from: u32, steps: u32, align: u32, ghost base: u32) returns (startAddr: u32, splitSize: u32)
      requires 1 <= align && base <= from && steps == Steps(base, from)
      ensures startAddr == (if AlignUp(from, align) < WORD then AlignUp(from, align) else 0)
      ensures splitSize == Steps(base, startAddr)
    {
      ghost var start := AlignUp(from, align);
      startAddr, splitSize := from, steps;
      while startAddr % align != 0
        invariant Counting(start, align, startAddr) && splitSize == Steps(base, startAddr)
        invariant startAddr == 0 || base <= startAddr
        decreases StepsLeft(startAddr)
      {
        CountOn(start, align, startAddr);
        startAddr := Next(startAddr);
        splitSize := Next(splitSize);
      }
      CountedUp(start, align, startAddr);
    }

    /** Cut `size` bytes off the front of a free node and move them to the used list. */
    method TakeFront(node: u32, size: u32, ghost k: nat) returns (ptr: u32)
      requires Linked([]) && Room(count, 1)
      requires k < |freeList.nodes| && freeList.nodes[k] == node
      modifies this`count, heap, freeList, usedList, unusedList
      ensures Linked([]) && count == Max(old(count), |View().free| + |View().used|) <= old(count) + 1
      ensures var v, b := old(View()), old(View().free[k]);
              && View() == State(Delete(Insert(v.free[k := Head(b, size)], k + 1, Rest(b, size)), k),
                                 v.used + [Head(b, size)])
              && ptr == b.base
    {
      var splitNode := SplitFree(node, size, k);
      RemoveFree(splitNode, k);
      InsertUsedLast(splitNode);
      UsedNode([], |usedList.nodes| - 1);
      ptr := heap.mem[node].virtAddr;
    }

    method TakePiece(node: u32, size: u32, gap: bool, ghost k: nat) returns (ptr: u32)
      requires Linked([]) && Room(count, 2)
      requires k < |freeList.nodes| && freeList.nodes[k] == node
      modifies this`count, heap, freeList, usedList, unusedList
      ensures Linked([]) && count == Max(old(count), |View().free| + |View().used|) <= old(count) + 2
      ensures View() == TakeFrom(old(View()), size, k, gap).state && ptr == TakeFrom(old(View()), size, k, gap).addr
    {
      ghost var v := View();
      TakenPiece(v, size, k, gap);
      if gap {
        var mallocNode := SplitFree(node, size, k);
        FreeNode([], k);
        ptr := TakeFront(heap.mem[mallocNode].next, size, k + 1);
      } else {
        ptr := TakeFront(node, size, k);
      }
    }

    /** The node that `malloc_above` allocates from, and whether it leaves a piece free in front. */
    method ChooseNode(size: u32, align: u32, above: u32, ghost i: nat) returns (node: u32, gap: bool)
      requires Linked([]) && Within(View().free, 0, WINDOW) && Found(View(), size, align, above, i)
      ensures i < |freeList.nodes| && node == freeList.nodes[i]
      ensures 0 <= View().free[i].base && gap == NeedsGap(View().free[i].base, align, above)
    {
      FreeNode([], i);
      node := SearchFree(Wrap(size + align), above);
      var splitSize := SplitSize(heap.mem[node].virtAddr, align, above);
      gap := splitSize > 0;
    }

    /** Whatever the cuts do to the block, all nodes stay properly linked; the partition survives exactly if the
        cuts fit. */
    method TakeAny(node: u32, size: u32, gap: bool, ghost k: nat) returns (ptr: u32)
      requires Valid() && Room(count, 2) && k < |freeList.nodes| && freeList.nodes[k] == node
      modifies this`count, heap, freeList, usedList, unusedList
      ensures Linked([]) && count == Max(old(count), |View().free| + |View().used|) <= old(count) + 2
      ensures View() == TakeFrom(old(View()), size, k, gap).state && ptr == TakeFrom(old(View()), size, k, gap).addr
      ensures Valid() <==> CutsFit(old(View()).free[k].size, size, gap)
    {
      TakeKeepsInvExactly(View(), managed, size, k, gap);
      ptr := TakePiece(node, size, gap, k);
    }

    /** Both lists become what the model says, whether or not the partition survives it. */
    method MallocAbove(size: u32, align: u32, above: u32) returns (ptr: u32)
      requires Valid() && 1 <= align && Room(count, 2)
      requires FirstFit(View().free, Wrap(size + align), above) < |View().free|
      modifies this`count, heap, freeList, usedList, unusedList
      ensures Linked([]) && count == Max(old(count), |View().free| + |View().used|) <= old(count) + 2
      ensures View() == Model.MallocAbove(old(View()), size, align, above).state
      ensures ptr == Model.MallocAbove(old(View()), size, align, above).addr
      ensures Valid() <==> Cuttable(old(View()), size, align, above)
    {
      ghost var i := FirstFit(View().free, Wrap(size + align), above);
      var mallocNode, gap := ChooseNode(size, align, above, i);
      ptr := TakeAny(mallocNode, size, gap, i);
    }

    method MallocAlign(size: u32, align: u32) returns (ptr: u32)
      requires Valid() && 1 <= align && Room(count, 2)
      requires FirstFit(View().free, Wrap(size + align), 0) < |View().free|
      modifies this`count, heap, freeList, usedList, unusedList
      ensures Linked([]) && count == Max(old(count), |View().free| + |View().used|) <= old(count) + 2
      ensures View() == Model.MallocAlign(old(View()), size, align).state
      ensures ptr == Model.MallocAlign(old(View()), size, align).addr
      ensures Valid() <==> Cuttable(old(View()), size, align, 0)
    {
      ptr := MallocAbove(size, align, 0);
    }

    method Malloc(size: u32) returns (ptr: u32)
      requires Valid() && Available(View(), size) && Room(count, 2)
      modifies this`count, heap, freeList, usedList, unusedList
      ensures Linked([]) && count == Max(old(count), |View().free| + |View().used|) <= old(count) + 2
      ensures View() == Model.Malloc(old(View()), size).state && ptr == Model.Malloc(old(View()), size).addr
      ensures Valid() <==> 1 <= size < WORD - 1
    {
      PlainMallocIsLegal(View(), size);
      ptr := MallocAlign(size, 1);
    }

    /** Move a used node back in front of its neighbour and coalesce. */
    method ReturnNode(usedNode: u32, ghost k: nat)
      requires Linked([]) && k < |usedList.nodes| && usedNode == usedList.nodes[k]
      requires Freeable(View(), k)
      modifies heap, freeList, usedList, unusedList
      ensures Linked([])
      ensures var v, b := old(View()), old(View().used[k]);
              View() == State(Compact(Insert(v.free, FirstBeyond(v.free, b.base), b)), Delete(v.used, k))
    {
      ghost var v := View();
      UsedNode([], k);
      var goesBefore := SearchFreeNeighbor(usedNode);
      RemoveUsed(usedNode, k);
      InsertFreeBefore(goesBefore, usedNode, FirstBeyond(v.free, v.used[k].base));
      CompactAllFree();
    }

    method Free(virtAddr: u32)
      requires Valid() && View().used != []
      modifies heap, freeList, usedList, unusedList
      ensures Valid() && View() == Model.Free(old(View()), virtAddr)
      ensures (forall k :: 0 <= k < |old(View().used)| ==> old(View().used)[k].base != virtAddr) ==>
                View() == old(View())
      ensures count == Max(old(count), |View().free| + |View().used|)
    {
      ghost var k := FirstAt(View().used, virtAddr);
      FreeKeepsInv(View(), managed, virtAddr);
      var usedNode := SearchUsed(virtAddr);
      if usedNode == 0 {
        return;
      }
      UsedIsFreeable(View(), managed, k);
      ReturnNode(usedNode, k);
    }
  }
}
