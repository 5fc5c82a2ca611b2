/** The virtual address allocator on plain values.

    A state is the free list and the used list, each as the sequence of (base, size) records its nodes
    hold. `MallocAbove` and `Free` do to these sequences exactly what the linked-list code does, with its
    32-bit arithmetic. The lemmas say what that means for sets of addresses, in one call and over every run. */
module AllocatorModel {
  import opened Word
  import opened Blocks

  datatype State = State(free: seq<Block>, used: seq<Block>)

  datatype Outcome = Outcome(state: State, addr: int)

  /** The least index whose element satisfies `p`, or |s|. */
  function First<T>(s: seq<T>, p: T -> bool): (r: nat)
    ensures r <= |s|
    ensures r < |s| ==> p(s[r])
    ensures forall i :: 0 <= i < r ==> !p(s[i])
  {
    if s == [] then 0 else if p(s[0]) then 0 else 1 + First(s[1..], p)
  }

  // ---------------------------------------------------------------- the operations

  /** The test `search_free` applies to one block. */
  predicate Fits(b: Block, size: int, above: int) {
    ((b.base <= above && b.End() > above) || b.base >= above) && b.size >= size
  }

  function FirstFit(s: seq<Block>, size: int, above: int): (r: nat)
    ensures r <= |s|
    ensures r < |s| ==> Fits(s[r], size, above)
    ensures forall i :: 0 <= i < r ==> !Fits(s[i], size, above)
  {
    First(s, (b: Block) => Fits(b, size, above))
  }

  /** The index of the first block that starts beyond `a`. */
  function FirstBeyond(s: seq<Block>, a: int): (r: nat)
    ensures r <= |s|
    ensures r < |s| ==> s[r].base > a
    ensures forall i :: 0 <= i < r ==> s[i].base <= a
  {
    First(s, (b: Block) => b.base > a)
  }

  /** The index of the first block that starts at `a`. */
  function FirstAt(s: seq<Block>, a: int): (r: nat)
    ensures r <= |s|
    ensures r < |s| ==> s[r].base == a
    ensures forall i :: 0 <= i < r ==> s[i].base != a
  {
    First(s, (b: Block) => b.base == a)
  }

  /** Cut a block in two after `size` bytes, in 32-bit arithmetic. */
  function Head(b: Block, size: u32): Block { Block(b.base, size) }

  function Rest(b: Block, size: u32): Block { Block(Wrap(b.base + size), Wrap(b.size - size)) }

  /** Where the counting loops stop: the first multiple of `align` at or above `base` and `above`, or 0 once
      the 32-bit counter has run past the last address. */
  function StartFor(base: nat, align: nat, above: nat): u32
    requires align >= 1
  {
    var start := AlignUp(Max(base, above), align);
    if start < WORD then start else 0
  }

  predicate NeedsGap(base: int, align: nat, above: nat)
    requires align >= 1 && base >= 0
  {
    StartFor(base, align, above) != base
  }

  /** Allocate from block `i`: cut at its front, or, if a gap is needed, leave a piece of length `size` (not
      the distance to the suitable address) free in front of the allocation. */
  function TakeFrom(st: State, size: u32, i: nat, gap: bool): Outcome
    requires i < |st.free|
  {
    var b := st.free[i];
    var r := Rest(b, size);
    if !gap then
      Outcome(State(st.free[..i] + [r] + st.free[i + 1..], st.used + [Head(b, size)]), b.base)
    else
      Outcome(State(st.free[..i] + [Head(b, size), Rest(r, size)] + st.free[i + 1..],
                    st.used + [Head(r, size)]), r.base)
  }

  function MallocAbove(st: State, size: u32, align: u32, above: u32): Outcome
    requires align >= 1 && Within(st.free, 0, WINDOW)
    requires FirstFit(st.free, Wrap(size + align), above) < |st.free|
  {
    var i := FirstFit(st.free, Wrap(size + align), above);
    assert 0 <= st.free[i].base;
    TakeFrom(st, size, i, NeedsGap(st.free[i].base, align, above))
  }

  /** Some free block is long enough for `malloc`, whose search asks for one byte more than the request. */
  predicate Available(st: State, size: u32) {
    FirstFit(st.free, Wrap(size + 1), 0) < |st.free|
  }

  function Malloc(st: State, size: u32): Outcome
    requires Available(st, size) && Within(st.free, 0, WINDOW)
  {
    MallocAbove(st, size, 1, 0)
  }

  function Free(st: State, addr: int): State {
    var k := FirstAt(st.used, addr);
    if k == |st.used| then st
    else
      var b := st.used[k];
      State(Compact(Insert(st.free, FirstBeyond(st.free, b.base), b)), Delete(st.used, k))
  }

  // ---------------------------------------------------------------- what every operation keeps

  ghost predicate IsTop(d: iset<int>, t: int) {
    t in d && forall a :: a in d ==> a <= t
  }

  /** The free list is canonical; free and used blocks are non-empty, pairwise disjoint, lie below the
      recursive window and together cover exactly `managed`, whose highest address is free. */
  ghost predicate Inv(st: State, managed: iset<int>) {
    && Canonical(st.free) && Sized(st.used)
    && Within(st.free, 0, WINDOW) && Within(st.used, 0, WINDOW)
    && (forall i, j :: 0 <= i < j < |st.used| ==> st.used[i].Apart(st.used[j]))
    && (forall i, j :: 0 <= i < |st.used| && 0 <= j < |st.free| ==> st.used[i].Apart(st.free[j]))
    && managed == Addrs(st.free) + Addrs(st.used)
    && (managed == iset{} || exists t :: IsTop(managed, t) && Covers(st.free, t))
  }

  lemma ApartIsUncovered(s: seq<Block>, b: Block, a: int)
    requires forall j :: 0 <= j < |s| ==> b.Apart(s[j])
    requires b.Has(a)
    ensures !Covers(s, a)
  {
  }

  lemma UsedIsManaged(st: State, managed: iset<int>, k: nat)
    requires Inv(st, managed) && k < |st.used|
    ensures st.used[k].base in managed && !Covers(st.free, st.used[k].base)
  {
  }

  /** While anything is allocated there is a free block above it: the neighbour that `free` inserts in
      front of always exists. */
  lemma FreeBlockAboveEveryUsedBlock(st: State, managed: iset<int>, k: nat)
    requires Inv(st, managed) && k < |st.used|
    ensures FirstBeyond(st.free, st.used[k].base) < |st.free|
    ensures st.free != [] && st.used[k].End() <= st.free[|st.free| - 1].base
  {
    UsedIsManaged(st, managed, k);
    var a := st.used[k].base;
    var t :| IsTop(managed, t) && Covers(st.free, t);
    var j :| 0 <= j < |st.free| && st.free[j].Has(t);
    assert a <= t && st.used[k].Apart(st.free[j]);
    var last := |st.free| - 1;
    assert st.used[k].Apart(st.free[last]);
    if j < last {
      assert st.free[j].End() < st.free[last].base;
    }
  }

  /** Blocks in use never share a base address, so a search by address finds the one right block. */
  lemma UsedAddressIsUnique(st: State, managed: iset<int>, k: nat)
    requires Inv(st, managed) && k < |st.used|
    ensures FirstAt(st.used, st.used[k].base) == k
  {
  }

  /** A state with nothing allocated satisfies the invariant for the addresses its free list covers. */
  lemma FreshInv(free: seq<Block>)
    requires Canonical(free) && Within(free, 0, WINDOW)
    ensures Inv(State(free, []), Addrs(free))
  {
    assert Addrs([]) == iset{};
    if free != [] {
      var last := |free| - 1;
      var t := free[last].End() - 1;
      assert free[last].Has(t);
      forall a | a in Addrs(free)
        ensures a <= t
      {
        var i :| 0 <= i < |free| && free[i].Has(a);
        assert i < last ==> free[i].End() < free[last].base;
      }
      assert IsTop(Addrs(free), t) && Covers(free, t);
    } else {
      assert Addrs(free) == iset{};
    }
    assert Addrs(free) == Addrs(free) + Addrs([]);
  }

  // ---------------------------------------------------------------- malloc

  lemma MallocShape(st: State, size: u32, i: nat, b: Block)
    requires Within(st.free, 0, WINDOW) && Available(st, size)
    requires i == FirstFit(st.free, Wrap(size + 1), 0) && b == st.free[i]
    ensures Malloc(st, size).addr == b.base
    ensures Malloc(st, size).state == State(st.free[i := Rest(b, size)], st.used + [Head(b, size)])
  {
  }

  lemma AppendAddrs(s: seq<Block>, b: Block)
    ensures Addrs(s + [b]) == Addrs(s) + Span(b)
  {
    assert Insert(s, |s|, b) == s + [b];
    InsertAddrs(s, |s|, b);
  }

  /** Cutting a block at its front takes away the addresses of the front piece only. */
  lemma FrontTaken(s: seq<Block>, size: u32, i: nat)
    requires Canonical(s) && Within(s, 0, WINDOW) && i < |s| && 1 <= size < s[i].size
    ensures Rest(s[i], size) == Block(s[i].base + size, s[i].size - size)
    ensures Canonical(s[i := Rest(s[i], size)]) && Within(s[i := Rest(s[i], size)], 0, WINDOW)
    ensures Addrs(s[i := Rest(s[i], size)]) == Addrs(s) - Span(Block(s[i].base, size))
  {
    assert 0 <= s[i].base && s[i].End() <= WINDOW;
    TrimFront(s, i, size);
  }

  /** The first block that fits size+1 bytes starts at the least address from which so many are free. */
  lemma FirstFitIsLeast(s: seq<Block>, size: nat, i: nat)
    requires Canonical(s) && Within(s, 0, WINDOW) && i == FirstFit(s, size + 1, 0) && i < |s|
    ensures Stretch(s, s[i].base, size)
    ensures forall a: int :: Stretch(s, a, size) ==> s[i].base <= a
  {
    forall x | s[i].base <= x <= s[i].base + size
      ensures Covers(s, x)
    {
      assert s[i].Has(x);
    }
    forall a: int | Stretch(s, a, size)
      ensures s[i].base <= a
    {
      var k := StretchInOneBlock(s, a, size);
      assert 0 <= s[k].base && Fits(s[k], size + 1, 0);
      if i < k {
        assert s[i].End() < s[k].base;
      }
    }
  }

  /** `malloc` hands out the least address from which size+1 addresses are free, and moves exactly the
      first `size` of them from the free to the used side. */
  lemma MallocTakesLeastFit(st: State, managed: iset<int>, size: u32)
    requires Inv(st, managed) && 1 <= size < WORD - 1 && Available(st, size)
    ensures var r := Malloc(st, size);
            && Stretch(st.free, r.addr, size)
            && (forall a: int :: Stretch(st.free, a, size) ==> r.addr <= a)
            && r.state.used == st.used + [Block(r.addr, size)]
            && Addrs(r.state.free) == Addrs(st.free) - Span(Block(r.addr, size))
            && Canonical(r.state.free) && Within(r.state.free, 0, WINDOW)
  {
    var i := FirstFit(st.free, Wrap(size + 1), 0);
    var b := st.free[i];
    MallocShape(st, size, i, b);
    assert Wrap(size + 1) == size + 1;
    FrontTaken(st.free, size, i);
    FirstFitIsLeast(st.free, size, i);
  }

  lemma ApartFromCovered(s: seq<Block>, b: Block)
    requires Sized(s) && b.size >= 1
    requires forall a :: b.Has(a) ==> !Covers(s, a)
    ensures forall j :: 0 <= j < |s| ==> b.Apart(s[j])
  {
    forall j | 0 <= j < |s|
      ensures b.Apart(s[j])
    {
      var a := Max(b.base, s[j].base);
      assert s[j].Has(a) ==> !b.Has(a);
    }
  }

  /** `taken` lies inside free block `i`, which is longer, and is what `free'` lacks. */
  ghost predicate TakenFrom(st: State, i: nat, free': seq<Block>, taken: Block) {
    && i < |st.free| && taken.size >= 1
    && st.free[i].base <= taken.base && taken.End() < st.free[i].End()
    && Canonical(free') && Within(free', 0, WINDOW) && Addrs(free') == Addrs(st.free) - Span(taken)
  }

  lemma TakenIsFree(st: State, i: nat, free': seq<Block>, taken: Block)
    requires TakenFrom(st, i, free', taken)
    ensures forall a :: taken.base <= a <= taken.End() ==> Covers(st.free, a)
  {
  }

  lemma TakeStaysApart(st: State, managed: iset<int>, i: nat, free': seq<Block>, taken: Block, u: Block)
    requires Inv(st, managed) && TakenFrom(st, i, free', taken)
    requires u in st.used || u == taken
    ensures forall j :: 0 <= j < |free'| ==> u.Apart(free'[j])
    ensures u in st.used ==> u.Apart(taken)
  {
    if u in st.used {
      assert u.Apart(st.free[i]);
    }
    forall a | u.Has(a)
      ensures !Covers(free', a)
    {
      if u in st.used {
        ApartIsUncovered(st.free, u, a);
      }
      assert a !in Addrs(free');
    }
    ApartFromCovered(free', u);
  }

  lemma TopSurvives(st: State, managed: iset<int>, i: nat, free': seq<Block>, taken: Block)
    requires Inv(st, managed) && TakenFrom(st, i, free', taken)
    ensures exists t :: IsTop(managed, t) && Covers(free', t)
  {
    TakenIsFree(st, i, free', taken);
    assert taken.End() in Addrs(st.free);
    var t :| IsTop(managed, t) && Covers(st.free, t);
    assert t !in Span(taken);
    assert t in Addrs(free');
  }

  /** Moving `taken` from inside a free block to the used list keeps the invariant, provided the byte after
      it stays free. */
  lemma TakeKeepsInv(st: State, managed: iset<int>, i: nat, free': seq<Block>, taken: Block)
    requires Inv(st, managed) && TakenFrom(st, i, free', taken)
    ensures Inv(State(free', st.used + [taken]), managed)
  {
    var used' := st.used + [taken];
    AppendAddrs(st.used, taken);
    TakenIsFree(st, i, free', taken);
    TopSurvives(st, managed, i, free', taken);
    forall k | 0 <= k < |used'|
      ensures forall j :: 0 <= j < |free'| ==> used'[k].Apart(free'[j])
      ensures k < |st.used| ==> used'[k].Apart(taken)
    {
      TakeStaysApart(st, managed, i, free', taken, used'[k]);
    }
    assert Addrs(free') + Addrs(used') == managed;
  }

  lemma MallocKeepsInv(st: State, managed: iset<int>, size: u32)
    requires Inv(st, managed) && 1 <= size < WORD - 1 && Available(st, size)
    ensures Inv(Malloc(st, size).state, managed)
  {
    MallocKeepsInvExactly(st, managed, size);
  }

  /** The two requests for which the 32-bit arithmetic of `malloc` does damage are 0, which puts an empty
      block in use, and 0xFFFFFFFF, whose search wraps to "any block". Every other request that finds a
      block keeps the invariant. */
  lemma MallocKeepsInvExactly(st: State, managed: iset<int>, size: u32)
    requires Inv(st, managed) && Available(st, size)
    ensures Inv(Malloc(st, size).state, managed) <==> 1 <= size < WORD - 1
  {
    var i := FirstFit(st.free, Wrap(size + 1), 0);
    MallocAboveKeepsInvExactly(st, managed, size, 1, 0, i);
  }

  /** `malloc` finds a block exactly when size+1 consecutive addresses are free. */
  lemma AvailableMeansFreeStretch(st: State, managed: iset<int>, size: u32)
    requires Inv(st, managed) && size < WORD - 1
    ensures Available(st, size) <==> exists a: int :: Stretch(st.free, a, size)
  {
    var i := FirstFit(st.free, Wrap(size + 1), 0);
    if i < |st.free| {
      var a := st.free[i].base;
      forall x | a <= x <= a + size
        ensures Covers(st.free, x)
      {
        assert st.free[i].Has(x);
      }
      assert Stretch(st.free, a, size);
    }
    if a: int :| Stretch(st.free, a, size) {
      var k := StretchInOneBlock(st.free, a, size);
      assert 0 <= st.free[k].base && Fits(st.free[k], size + 1, 0);
    }
  }

  // ---------------------------------------------------------------- malloc_above

  /** The search of `malloc_above` stops at block `i`; the length it asks for is a 32-bit sum. */
  predicate Found(st: State, size: u32, align: u32, above: u32, i: nat) {
    1 <= align && i == FirstFit(st.free, Wrap(size + align), above) && i < |st.free|
  }

  /** Free list after cutting [base + gap, base + gap + n) out of the block at `i`, 0 < gap. */
  function Carve(s: seq<Block>, i: nat, gap: nat, n: nat): seq<Block>
    requires i < |s|
  {
    s[..i] + [Block(s[i].base, gap), Block(s[i].base + gap + n, s[i].size - gap - n)] + s[i + 1..]
  }

  lemma CarveIsCanonical(s: seq<Block>, i: nat, gap: nat, n: nat)
    requires Canonical(s) && Within(s, 0, WINDOW)
    requires i < |s| && 1 <= gap && 1 <= n && gap + n < s[i].size
    ensures Canonical(Carve(s, i, gap, n)) && Within(Carve(s, i, gap, n), 0, WINDOW)
  {
    var c := Carve(s, i, gap, n);
    forall a, b | 0 <= a < b < |c|
      ensures c[a].End() < c[b].base
    {
      var a', b' := if a <= i then a else a - 1, if b <= i then b else b - 1;
      assert a' < b' ==> s[a'].End() < s[b'].base;
    }
  }

  lemma CarveAddrs(s: seq<Block>, i: nat, gap: nat, n: nat)
    requires Canonical(s) && i < |s| && 1 <= gap && 1 <= n && gap + n < s[i].size
    ensures Addrs(Carve(s, i, gap, n)) == Addrs(s) - Span(Block(s[i].base + gap, n))
  {
    var b, c := s[i], Carve(s, i, gap, n);
    var t := s[i := Block(b.base + (gap + n), b.size - (gap + n))];
    assert Insert(t, i, Block(b.base, gap)) == c;
    TrimFront(s, i, gap + n);
    InsertAddrs(t, i, Block(b.base, gap));
    forall a | b.Has(a)
      ensures a in Addrs(s)
    {
      assert s[i].Has(a);
    }
  }

  lemma CutFront(st: State, managed: iset<int>, size: u32, i: nat)
    requires Inv(st, managed) && i < |st.free| && 1 <= size < st.free[i].size
    ensures TakeFrom(st, size, i, false)
         == Outcome(State(st.free[i := Block(st.free[i].base + size, st.free[i].size - size)],
                          st.used + [Block(st.free[i].base, size)]), st.free[i].base)
    ensures Inv(TakeFrom(st, size, i, false).state, managed)
  {
    var b := st.free[i];
    FrontTaken(st.free, size, i);
    var free' := st.free[i := Block(b.base + size, b.size - size)];
    assert free' == st.free[..i] + [Rest(b, size)] + st.free[i + 1..];
    TakeKeepsInv(st, managed, i, free', Block(b.base, size));
  }

  lemma CutMiddle(st: State, managed: iset<int>, i: nat, gap: nat, n: nat)
    requires Inv(st, managed) && i < |st.free| && 1 <= gap && 1 <= n && gap + n < st.free[i].size
    ensures Inv(State(Carve(st.free, i, gap, n), st.used + [Block(st.free[i].base + gap, n)]), managed)
  {
    CarveIsCanonical(st.free, i, gap, n);
    CarveAddrs(st.free, i, gap, n);
    TakeKeepsInv(st, managed, i, Carve(st.free, i, gap, n), Block(st.free[i].base + gap, n));
  }

  lemma GapBranchShape(st: State, size: u32, i: nat)
    requires Within(st.free, 0, WINDOW) && i < |st.free| && 1 <= size && st.free[i].size > 2 * size
    ensures TakeFrom(st, size, i, true)
         == Outcome(State(Carve(st.free, i, size, size), st.used + [Block(st.free[i].base + size, size)]),
                    st.free[i].base + size)
  {
    var b := st.free[i];
    assert 0 <= b.base && b.End() <= WINDOW;
    assert Rest(b, size) == Block(b.base + size, b.size - size);
    assert Rest(Rest(b, size), size) == Block(b.base + size + size, b.size - size - size);
  }

  lemma ShortBlockBreaksInv(st: State, managed: iset<int>, size: u32, i: nat)
    requires Inv(st, managed) && i < |st.free| && size < st.free[i].size <= 2 * size
    ensures !Inv(TakeFrom(st, size, i, true).state, managed)
  {
    var b := st.free[i];
    assert 0 <= b.base && b.End() <= WINDOW;
    var free' := TakeFrom(st, size, i, true).state.free;
    var r := Rest(b, size);
    assert r == Block(b.base + size, b.size - size);
    assert free'[i] == Head(b, size) && free'[i + 1] == Rest(r, size);
    assert Rest(r, size) == Block(Wrap(b.base + 2 * size), Wrap(b.size - 2 * size));
    BadNeighbourBreaksInv(TakeFrom(st, size, i, true).state, managed, i);
  }

  lemma BadNeighbourBreaksInv(st: State, managed: iset<int>, i: nat)
    requires i + 1 < |st.free|
    requires st.free[i + 1].size == 0 || st.free[i + 1].End() > WINDOW || st.free[i + 1].base <= st.free[i].End()
    ensures !Inv(st, managed)
  {
  }

  /** The test of the search: the block is long enough and holds an address at or above the bound. */
  lemma FitsExactly(b: Block, size: int, above: int)
    requires b.size >= 1
    ensures Fits(b, size, above) <==> b.size >= size && exists a: int :: b.Has(a) && a >= above
  {
    assert b.Has(b.End() - 1);
  }

  /** A gap is needed exactly when the block does not start suitably, except that nothing is left in front of a
      block from 0 on if no suitable address is left at all. */
  lemma NeedsGapMeans(base: u32, align: u32, above: u32)
    requires 1 <= align
    ensures !NeedsGap(base, align, above)
       <==> (base >= above && base % align == 0) || (base == 0 && forall y: nat :: above <= y < WORD ==> y % align != 0)
  {
    AlignUpIsLeast(Max(base, above), align);
    if base == 0 && AlignUp(Max(base, above), align) < WORD {
      assert AlignUp(Max(base, above), align) % align == 0;
    }
  }

  /** Which block `malloc_above` allocates from: the first that is long enough for size + align, in 32 bits, and
      reaches the bound. It finds one exactly when there is one. */
  lemma MallocAboveTakesFirst(st: State, managed: iset<int>, size: u32, align: u32, above: u32, i: nat)
    requires Inv(st, managed) && 1 <= align && i < |st.free|
    requires st.free[i].size >= Wrap(size + align) && st.free[i].End() > above
    requires forall j :: 0 <= j < i ==> st.free[j].size < Wrap(size + align) || st.free[j].End() <= above
    ensures FirstFit(st.free, Wrap(size + align), above) == i
    ensures MallocAbove(st, size, align, above) == TakeFrom(st, size, i, NeedsGap(st.free[i].base, align, above))
  {
    assert Fits(st.free[i], Wrap(size + align), above);
  }

  lemma FindsExactly(st: State, managed: iset<int>, size: u32, above: u32)
    requires Inv(st, managed)
    ensures FirstFit(st.free, size, above) < |st.free|
       <==> exists i :: 0 <= i < |st.free| && st.free[i].size >= size && st.free[i].End() > above
  {
    var i := FirstFit(st.free, size, above);
    assert i < |st.free| ==> st.free[i].size >= size && st.free[i].End() > above;
    if j :| 0 <= j < |st.free| && st.free[j].size >= size && st.free[j].End() > above {
      assert Fits(st.free[j], size, above);
    }
  }

  /** A piece that covers the first address behind a free block can neither be handed out nor stay free: that
      address is in use already, or is not managed at all. */
  lemma ForeignPieceBreaksInv(st: State, st': State, managed: iset<int>, i: nat, piece: Block)
    requires Inv(st, managed) && i < |st.free| && piece.Has(st.free[i].End())
    requires |st.used| < |st'.used| && st'.used[..|st.used|] == st.used
    requires st'.used[|st.used|] == piece || piece in st'.free
    ensures !Inv(st', managed)
  {
    var x := st.free[i].End();
    EndIsGap(st.free, i);
    assert Covers(st'.free, x) || Covers(st'.used, x);
    if k: nat :| k < |st.used| && st.used[k].Has(x) {
      assert !st'.used[k].Apart(piece);
    } else {
      assert x !in Addrs(st.free) + Addrs(st.used);
      assert x in Addrs(st'.free) + Addrs(st'.used);
    }
  }

  /** Each piece the code makes of a block of `length` bytes, one or two of `size` and the rest, is non-empty
      and lies inside the block. */
  predicate CutsFit(length: int, size: u32, gap: bool) {
    1 <= size && (if gap then 2 * size < length else size < length)
  }

  /** Where the pieces end up. */
  lemma TakeShape(st: State, size: u32, i: nat, gap: bool)
    requires i < |st.free|
    ensures var st', b := TakeFrom(st, size, i, gap).state, st.free[i];
            && |st.used| < |st'.used| && st'.used[..|st.used|] == st.used && i < |st'.free|
            && st'.used[|st.used|] == Head(if gap then Rest(b, size) else b, size)
            && st'.free[i] == (if gap then Head(b, size) else Rest(b, size)) && st'.free[i] in st'.free
  {
  }

  lemma EmptyPieceBreaksInv(st: State, managed: iset<int>, i: nat)
    requires i < |st.free| && st.free[i].size == 0
    ensures !Inv(st, managed)
  {
  }

  lemma LongCutBreaksInv(st: State, managed: iset<int>, size: u32, i: nat, gap: bool)
    requires Inv(st, managed) && i < |st.free| && st.free[i].size <= size
    ensures !Inv(TakeFrom(st, size, i, gap).state, managed)
  {
    TakeShape(st, size, i, gap);
    LongPieceBreaksInv(st, TakeFrom(st, size, i, gap).state, managed, size, i, gap);
  }

  lemma LongPieceBreaksInv(st: State, st': State, managed: iset<int>, size: u32, i: nat, gap: bool)
    requires Inv(st, managed) && i < |st.free| && st.free[i].size <= size && i < |st'.free|
    requires |st.used| < |st'.used| && st'.used[..|st.used|] == st.used
    requires st'.used[|st.used|] == Head(if gap then Rest(st.free[i], size) else st.free[i], size)
    requires st'.free[i] == (if gap then Head(st.free[i], size) else Rest(st.free[i], size)) && st'.free[i] in st'.free
    ensures !Inv(st', managed)
  {
    var b := st.free[i];
    assert 1 <= b.size && 0 <= b.base && b.End() <= WINDOW;
    if size > b.size {
      ForeignPieceBreaksInv(st, st', managed, i, Head(b, size));
    } else if gap {
      ForeignPieceBreaksInv(st, st', managed, i, Head(Rest(b, size), size));
    } else {
      EmptyPieceBreaksInv(st', managed, i);
    }
  }

  /** For every 32-bit size: allocating from a block keeps the partition exactly when the cuts fit it. */
  lemma TakeKeepsInvExactly(st: State, managed: iset<int>, size: u32, i: nat, gap: bool)
    requires Inv(st, managed) && i < |st.free|
    ensures Inv(TakeFrom(st, size, i, gap).state, managed) <==> CutsFit(st.free[i].size, size, gap)
  {
    var st' := TakeFrom(st, size, i, gap).state;
    if size == 0 {
      assert st'.used[|st.used|].size == 0;
    } else if st.free[i].size <= size {
      LongCutBreaksInv(st, managed, size, i, gap);
    } else if !gap {
      CutFront(st, managed, size, i);
    } else if st.free[i].size <= 2 * size {
      ShortBlockBreaksInv(st, managed, size, i);
    } else {
      GapBranchShape(st, size, i);
      CutMiddle(st, managed, i, size, size);
    }
  }

  /** For every request that finds a block, also one whose search length wraps: `malloc_above` keeps the
      partition exactly when the request is not empty and the block is longer than it, or than twice the
      request if a gap is needed. */
  lemma MallocAboveKeepsInvExactly(st: State, managed: iset<int>, size: u32, align: u32, above: u32, i: nat)
    requires Inv(st, managed) && Found(st, size, align, above, i)
    ensures MallocAbove(st, size, align, above) == TakeFrom(st, size, i, NeedsGap(st.free[i].base, align, above))
    ensures Inv(MallocAbove(st, size, align, above).state, managed)
       <==> CutsFit(st.free[i].size, size, NeedsGap(st.free[i].base, align, above))
  {
    TakeKeepsInvExactly(st, managed, size, i, NeedsGap(st.free[i].base, align, above));
  }

  /** The search finds a block, and the cuts fit it. */
  predicate Cuttable(st: State, size: u32, align: u32, above: u32) {
    1 <= align
    && var i := FirstFit(st.free, Wrap(size + align), above);
       i < |st.free| && 0 <= st.free[i].base
       && CutsFit(st.free[i].size, size, NeedsGap(st.free[i].base, align, above))
  }

  lemma MallocAboveKeepsInv(st: State, managed: iset<int>, size: u32, align: u32, above: u32)
    requires Inv(st, managed) && Cuttable(st, size, align, above)
    ensures Inv(MallocAbove(st, size, align, above).state, managed)
  {
    MallocAboveKeepsInvExactly(st, managed, size, align, above, FirstFit(st.free, Wrap(size + align), above));
  }

  /** `malloc_above` as written returns an address at or above `above` exactly when the block it finds starts
      there and aligned, or needs a gap and the address `size` bytes in lies high enough. */
  lemma MallocAboveIsAboveExactly(st: State, managed: iset<int>, size: u32, align: u32, above: u32, i: nat)
    requires Inv(st, managed) && Found(st, size, align, above, i)
    ensures var base := st.free[i].base;
            (MallocAbove(st, size, align, above).addr >= above
             <==> (base >= above && base % align == 0)
                  || (NeedsGap(base, align, above) && Wrap(base + size) >= above))
  {
    var base := st.free[i].base;
    assert 0 <= base && st.free[i].End() <= WINDOW;
    NoGapExactly(base, align, above);
    assert MallocAbove(st, size, align, above).addr
        == if NeedsGap(base, align, above) then Wrap(base + size) else base;
  }

  lemma NoGapExactly(base: u32, align: u32, above: u32)
    requires 1 <= align
    ensures !NeedsGap(base, align, above) && base >= above <==> base >= above && base % align == 0
  {
    AlignUpIsLeast(Max(base, above), align);
  }

  /** In a block from 0x1000 on, 16 bytes at or above 0x1800 come back at 0x1010; and in one from 0 on, a
      bound whose next multiple of `align` is 2^32 makes the counter wrap, so the result is 0. */
  lemma MallocAboveCanMissBound()
    ensures var st := State([Block(0x1000, 0x1_0000)], []);
            Inv(st, Addrs(st.free)) && Found(st, 16, 1, 0x1800, 0) && MallocAbove(st, 16, 1, 0x1800).addr == 0x1010
    ensures var st := State([Block(0, WINDOW)], []);
            && Inv(st, Addrs(st.free)) && Found(st, 16, 0x8000_0000, 0x8000_0001, 0)
            && MallocAbove(st, 16, 0x8000_0000, 0x8000_0001).addr == 0
  {
    OneBlock(Block(0x1000, 0x1_0000), 16, 1, 0x1800);
    OneBlock(Block(0, WINDOW), 16, 0x8000_0000, 0x8000_0001);
  }

  /** Nothing is in use and a single free block fits the request. */
  lemma OneBlock(b: Block, size: u32, align: u32, above: u32)
    requires 0 <= b.base && b.End() <= WINDOW && 1 <= b.size && 1 <= align && Fits(b, Wrap(size + align), above)
    ensures Inv(State([b], []), Addrs([b])) && Found(State([b], []), size, align, above, 0)
    ensures MallocAbove(State([b], []), size, align, above)
         == TakeFrom(State([b], []), size, 0, NeedsGap(b.base, align, above))
  {
    FreshInv([b]);
    assert [b][0] == b;
  }

  /** With one free block, the two plain requests that break the partition. */
  lemma MallocCanBreakPartition()
    ensures var st := State([Block(0x1000, 0x1000)], []);
            && Inv(st, Addrs(st.free)) && Available(st, 0) && Available(st, 0xFFFF_FFFF)
            && !Inv(Malloc(st, 0).state, Addrs(st.free)) && !Inv(Malloc(st, 0xFFFF_FFFF).state, Addrs(st.free))
  {
    var b := Block(0x1000, 0x1000);
    OneBlock(b, 0, 1, 0);
    MallocKeepsInvExactly(State([b], []), Addrs([b]), 0);
    OneBlock(b, 0xFFFF_FFFF, 1, 0);
    MallocKeepsInvExactly(State([b], []), Addrs([b]), 0xFFFF_FFFF);
  }

  // ---------------------------------------------------------------- malloc_align

  function MallocAlign(st: State, size: u32, align: u32): Outcome
    requires 1 <= align && FirstFit(st.free, Wrap(size + align), 0) < |st.free| && Within(st.free, 0, WINDOW)
  {
    MallocAbove(st, size, align, 0)
  }

  /** `malloc_align` finds block `i` for at least one byte, by a search length that did not wrap. */
  predicate Finds(st: State, size: u32, align: u32, i: nat) {
    1 <= size && size + align < WORD && Found(st, size, align, 0, i)
  }

  lemma NeedsGapExactly(base: u32, align: u32)
    requires align >= 1
    ensures NeedsGap(base, align, 0) <==> base % align != 0
  {
    AlignUpIsLeast(base, align);
  }

  lemma MallocAlignShape(st: State, managed: iset<int>, size: u32, align: u32, i: nat)
    requires Inv(st, managed) && Found(st, size, align, 0, i)
    ensures 0 <= st.free[i].base < WORD
    ensures NeedsGap(st.free[i].base, align, 0) <==> st.free[i].base % align != 0
    ensures MallocAlign(st, size, align) == TakeFrom(st, size, i, NeedsGap(st.free[i].base, align, 0))
    ensures MallocAlign(st, size, align).addr
         == if NeedsGap(st.free[i].base, align, 0) then Wrap(st.free[i].base + size) else st.free[i].base
  {
    assert 0 <= st.free[i].base && st.free[i].End() <= WINDOW;
    NeedsGapExactly(st.free[i].base, align);
  }

  /** For every request that finds a block, `malloc_align` as written keeps the partition exactly when the
      request is not empty and the block is longer than it, or than twice the request if it starts unaligned. */
  lemma MallocAlignKeepsInvExactly(st: State, managed: iset<int>, size: u32, align: u32, i: nat)
    requires Inv(st, managed) && Found(st, size, align, 0, i)
    ensures Inv(MallocAlign(st, size, align).state, managed)
       <==> CutsFit(st.free[i].size, size, st.free[i].base % align != 0)
  {
    MallocAlignShape(st, managed, size, align, i);
    MallocAboveKeepsInvExactly(st, managed, size, align, 0, i);
  }

  /** As written it returns an aligned address exactly when the chosen block starts aligned, or happens to
      be aligned `size` bytes further on. */
  lemma MallocAlignIsAlignedExactly(st: State, managed: iset<int>, size: u32, align: u32, i: nat)
    requires Inv(st, managed) && Found(st, size, align, 0, i)
    ensures MallocAlign(st, size, align).addr % align == 0
       <==> st.free[i].base % align == 0 || Wrap(st.free[i].base + size) % align == 0
  {
    MallocAlignShape(st, managed, size, align, i);
    var base, addr := st.free[i].base, MallocAlign(st, size, align).addr;
    assert addr == if base % align == 0 then base else Wrap(base + size);
  }

  function TakeBehind(st: State, size: u32, i: nat, gap: nat): Outcome
    requires i < |st.free|
  {
    if gap == 0 then TakeFrom(st, size, i, false)
    else Outcome(State(Carve(st.free, i, gap, size), st.used + [Block(st.free[i].base + gap, size)]),
                 st.free[i].base + gap)
  }

  /** The variant the local names describe: the piece left in front reaches up to the aligned address. */
  function MallocAlignAsMeant(st: State, size: u32, align: u32, i: nat): Outcome
    requires Finds(st, size, align, i) && st.free[i].base >= 0
  {
    TakeBehind(st, size, i, GapTo(st.free[i].base, align))
  }

  function GapTo(base: nat, align: nat): (gap: nat)
    requires align >= 1
    ensures gap < align
  {
    AlignUp(base, align) - base
  }

  lemma GapToIsLeast(base: nat, align: nat)
    requires align >= 1
    ensures (base + GapTo(base, align)) % align == 0
    ensures forall y :: base <= y < base + GapTo(base, align) ==> y % align != 0
    ensures GapTo(base, align) == 0 <==> base % align == 0
  {
    AlignUpIsLeast(base, align);
  }

  lemma TakeBehindShape(st: State, managed: iset<int>, size: u32, i: nat, gap: nat)
    requires Inv(st, managed) && i < |st.free| && 1 <= size && gap + size < st.free[i].size
    ensures TakeBehind(st, size, i, gap).addr == st.free[i].base + gap
    ensures TakeBehind(st, size, i, gap).state.used == st.used + [Block(st.free[i].base + gap, size)]
    ensures TakeBehind(st, size, i, gap).state ==
              if gap == 0 then TakeFrom(st, size, i, false).state
              else State(Carve(st.free, i, gap, size), st.used + [Block(st.free[i].base + gap, size)])
  {
  }

  /** As meant, the result is the least multiple of `align` in the chosen block, and searching for
      size + align bytes always leaves at least one free byte behind the allocation. */
  lemma AsMeantIsAligned(st: State, managed: iset<int>, size: u32, align: u32, i: nat)
    requires Inv(st, managed) && Finds(st, size, align, i) && st.free[i].base >= 0
    ensures var r := MallocAlignAsMeant(st, size, align, i);
            && r.addr % align == 0 && st.free[i].base <= r.addr && r.addr + size < st.free[i].End()
            && (forall y :: st.free[i].base <= y < r.addr ==> y % align != 0)
            && r.state.used == st.used + [Block(r.addr, size)]
            && Inv(r.state, managed)
  {
    var gap := GapTo(st.free[i].base, align);
    GapToIsLeast(st.free[i].base, align);
    TakeBehindShape(st, managed, size, i, gap);
    if gap == 0 {
      CutFront(st, managed, size, i);
    } else {
      CutMiddle(st, managed, i, gap, size);
    }
  }

  /** The code does what was meant exactly when no gap is needed or the gap happens to equal the request. */
  lemma MallocAlignIsAsMeantExactly(st: State, managed: iset<int>, size: u32, align: u32, i: nat)
    requires Inv(st, managed) && Finds(st, size, align, i) && st.free[i].base >= 0
    ensures MallocAlign(st, size, align) == MallocAlignAsMeant(st, size, align, i)
       <==> st.free[i].base % align == 0 || GapTo(st.free[i].base, align) == size
  {
    AsMeantExactly(st, size, align, i);
  }

  lemma AsMeantExactly(st: State, size: u32, align: u32, i: nat)
    requires Within(st.free, 0, WINDOW) && Finds(st, size, align, i) && st.free[i].base >= 0
    ensures MallocAlign(st, size, align) == MallocAlignAsMeant(st, size, align, i)
       <==> st.free[i].base % align == 0 || GapTo(st.free[i].base, align) == size
  {
    GapToIsLeast(st.free[i].base, align);
    GapsAgree(st.free[i].base, align);
    AsMeantByGap(st, size, align, i, GapTo(st.free[i].base, align));
  }

  lemma AsMeantByGap(st: State, size: u32, align: u32, i: nat, gap: nat)
    requires Within(st.free, 0, WINDOW) && Finds(st, size, align, i) && st.free[i].base >= 0
    requires gap == GapTo(st.free[i].base, align) && (NeedsGap(st.free[i].base, align, 0) <==> gap != 0)
    ensures MallocAlign(st, size, align) == MallocAlignAsMeant(st, size, align, i) <==> gap == 0 || gap == size
  {
    TakenByGap(st, size, align, i, gap != 0);
    TakeIsTakeBehindExactly(st, size, i, gap);
  }

  lemma GapsAgree(base: u32, align: u32)
    requires align >= 1
    ensures NeedsGap(base, align, 0) <==> GapTo(base, align) != 0
  {
  }

  lemma TakenByGap(st: State, size: u32, align: u32, i: nat, gap: bool)
    requires Within(st.free, 0, WINDOW) && Found(st, size, align, 0, i) && st.free[i].base >= 0
    requires NeedsGap(st.free[i].base, align, 0) == gap
    ensures MallocAlign(st, size, align) == TakeFrom(st, size, i, gap)
  {
  }

  lemma TakeIsTakeBehindExactly(st: State, size: u32, i: nat, gap: nat)
    requires Within(st.free, 0, WINDOW) && i < |st.free| && 1 <= size && gap + size < st.free[i].size
    ensures TakeFrom(st, size, i, gap != 0) == TakeBehind(st, size, i, gap) <==> gap == 0 || gap == size
  {
    assert 0 <= st.free[i].base && st.free[i].End() <= WINDOW;
    assert TakeFrom(st, size, i, gap != 0).addr == st.free[i].base + if gap == 0 then 0 else size;
    if gap == size {
      GapBranchShape(st, size, i);
    }
  }

  /** A request for 16 bytes aligned to 64 in a block starting at 0x1010 comes back at 0x1020. */
  lemma MallocAlignCanMisalign()
    ensures var st := State([Block(0x1010, 0x1000)], []);
            && Inv(st, Addrs(st.free)) && Finds(st, 16, 64, 0)
            && MallocAlign(st, 16, 64).addr == 0x1020 && 0x1020 % 64 != 0
  {
    OneBlock(Block(0x1010, 0x1000), 16, 64, 0);
    NeedsGapExactly(0x1010, 64);
  }

  /** With block `b` free and nothing in use, `malloc_align` finds `b` and breaks the partition. */
  ghost predicate BreaksPartition(b: Block, size: u32, align: u32) {
    var st := State([b], []);
    && Inv(st, Addrs(st.free)) && Found(st, size, align, 0, 0)
    && !Inv(MallocAlign(st, size, align).state, Addrs(st.free))
  }

  /** Three such requests: 64 bytes aligned to 64 in a block of 128 bytes from 0x1010 on; no bytes; and
      0xFFFFFFC0 bytes, for which the search length wraps to 0. */
  lemma MallocAlignCanBreakPartition()
    ensures BreaksPartition(Block(0x1010, 128), 64, 64)
    ensures BreaksPartition(Block(0x1000, 0x1000), 0, 64)
    ensures BreaksPartition(Block(0x1000, 0x1000), 0xFFFF_FFC0, 64)
  {
    OneBlockBreaks(Block(0x1010, 128), 64, 64);
    OneBlockBreaks(Block(0x1000, 0x1000), 0, 64);
    OneBlockBreaks(Block(0x1000, 0x1000), 0xFFFF_FFC0, 64);
  }

  lemma OneBlockBreaks(b: Block, size: u32, align: u32)
    requires 0 <= b.base && b.End() <= WINDOW && 1 <= b.size && 1 <= align && Wrap(size + align) <= b.size
    requires size == 0 || b.size <= size || (b.base % align != 0 && b.size <= 2 * size)
    ensures BreaksPartition(b, size, align)
  {
    OneBlock(b, size, align, 0);
    MallocAlignKeepsInvExactly(State([b], []), Addrs([b]), size, align, 0);
  }

  // ---------------------------------------------------------------- free

  lemma InsertKeepsOrder(s: seq<Block>, pos: nat, b: Block)
    requires Ordered(s) && pos <= |s| && b.size >= 1
    requires forall i :: 0 <= i < pos ==> s[i].End() <= b.base
    requires forall i :: pos <= i < |s| ==> b.End() <= s[i].base
    ensures Ordered(Insert(s, pos, b))
    ensures forall lo, hi :: Within(s, lo, hi) && lo <= b.base && b.End() <= hi ==> Within(Insert(s, pos, b), lo, hi)
  {
  }

  lemma InsertedIsOrdered(st: State, managed: iset<int>, k: nat)
    requires Inv(st, managed) && k < |st.used|
    ensures Ordered(Insert(st.free, FirstBeyond(st.free, st.used[k].base), st.used[k]))
    ensures Within(Insert(st.free, FirstBeyond(st.free, st.used[k].base), st.used[k]), 0, WINDOW)
  {
    var b := st.used[k];
    var pos := FirstBeyond(st.free, b.base);
    forall i | 0 <= i < |st.free|
      ensures if i < pos then st.free[i].End() <= b.base else b.End() <= st.free[i].base
    {
      assert b.Apart(st.free[i]);
      if pos < i {
        assert st.free[pos].End() < st.free[i].base;
      }
    }
    InsertKeepsOrder(st.free, pos, b);
  }

  lemma {:induction false} CompactStaysWithin(s: seq<Block>, lo: int, hi: int)
    requires Ordered(s) && Within(s, lo, hi)
    ensures Within(Compact(s), lo, hi)
    decreases |s|
  {
    var i := FirstAdjacent(s, 0);
    if i == |s| {
    } else {
      MergeKeepsOrder(s, i);
      CompactStaysWithin(Merge(s, i), lo, hi);
    }
  }

  /** `free` of the base of a block in use gives back exactly that block and nothing else. */
  lemma FreeReturnsBlock(st: State, managed: iset<int>, k: nat)
    requires Inv(st, managed) && k < |st.used|
    ensures var s' := Free(st, st.used[k].base);
            && Canonical(s'.free) && Within(s'.free, 0, WINDOW)
            && Addrs(s'.free) == Addrs(st.free) + Span(st.used[k])
            && s'.used == Delete(st.used, k)
            && Addrs(s'.used) == Addrs(st.used) - Span(st.used[k])
  {
    UsedAddressIsUnique(st, managed, k);
    InsertedIsOrdered(st, managed, k);
    var t := Insert(st.free, FirstBeyond(st.free, st.used[k].base), st.used[k]);
    CompactIsCanonicalForm(t);
    CompactStaysWithin(t, 0, WINDOW);
    InsertAddrs(st.free, FirstBeyond(st.free, st.used[k].base), st.used[k]);
    forall i | 0 <= i < |st.used| && i != k
      ensures st.used[i].Apart(st.used[k])
    {
      assert i < k ==> st.used[i].Apart(st.used[k]);
      assert k < i ==> st.used[k].Apart(st.used[i]);
    }
    DeleteAddrs(st.used, k);
  }

  /** A block that stays in use shares nothing with the free list after block `k` was given back. */
  lemma OtherStaysApart(st: State, managed: iset<int>, k: nat, i: nat)
    requires Inv(st, managed) && k < |st.used| && i < |st.used| && i != k
    ensures var s' := Free(st, st.used[k].base);
            forall j :: 0 <= j < |s'.free| ==> st.used[i].Apart(s'.free[j])
  {
    var s' := Free(st, st.used[k].base);
    FreeReturnsBlock(st, managed, k);
    assert st.used[i].Apart(st.used[k]) by {
      assert i < k ==> st.used[i].Apart(st.used[k]);
      assert k < i ==> st.used[k].Apart(st.used[i]);
    }
    forall a | st.used[i].Has(a)
      ensures !Covers(s'.free, a)
    {
      ApartIsUncovered(st.free, st.used[i], a);
      assert a !in Addrs(s'.free);
    }
    ApartFromCovered(s'.free, st.used[i]);
  }

  lemma DeletedStaysApart(s: seq<Block>, k: nat)
    requires k < |s| && forall i, j :: 0 <= i < j < |s| ==> s[i].Apart(s[j])
    ensures forall i, j :: 0 <= i < j < |s| - 1 ==> Delete(s, k)[i].Apart(Delete(s, k)[j])
  {
    forall i, j | 0 <= i < j < |s| - 1
      ensures Delete(s, k)[i].Apart(Delete(s, k)[j])
    {
      assert s[if i < k then i else i + 1].Apart(s[if j < k then j else j + 1]);
    }
  }

  lemma FreeStaysApart(st: State, managed: iset<int>, k: nat)
    requires Inv(st, managed) && k < |st.used|
    ensures var s' := Free(st, st.used[k].base);
            && (forall i, j :: 0 <= i < j < |s'.used| ==> s'.used[i].Apart(s'.used[j]))
            && (forall i, j :: 0 <= i < |s'.used| && 0 <= j < |s'.free| ==> s'.used[i].Apart(s'.free[j]))
            && Sized(s'.used) && Within(s'.used, 0, WINDOW)
  {
    var s' := Free(st, st.used[k].base);
    UsedAddressIsUnique(st, managed, k);
    assert s'.used == Delete(st.used, k);
    DeletedStaysApart(st.used, k);
    forall i | 0 <= i < |s'.used|
      ensures forall j :: 0 <= j < |s'.free| ==> s'.used[i].Apart(s'.free[j])
    {
      OtherStaysApart(st, managed, k, if i < k then i else i + 1);
    }
  }

  /** `free` of an address at which no block in use starts changes nothing. */
  lemma FreeOfUnknownAddress(st: State, addr: int)
    requires forall k :: 0 <= k < |st.used| ==> st.used[k].base != addr
    ensures Free(st, addr) == st
  {
  }

  lemma FreeKeepsInv(st: State, managed: iset<int>, addr: int)
    requires Inv(st, managed)
    ensures Inv(Free(st, addr), managed)
  {
    var k := FirstAt(st.used, addr);
    if k < |st.used| {
      var s' := Free(st, addr);
      FreeReturnsBlock(st, managed, k);
      FreeStaysApart(st, managed, k);
      forall a | st.used[k].Has(a)
        ensures a in Addrs(st.used)
      {
      }
      assert Addrs(s'.free) + Addrs(s'.used) == managed;
      if managed != iset{} {
        var t :| IsTop(managed, t) && Covers(st.free, t);
        assert t in Addrs(s'.free);
      }
    }
  }

  // ---------------------------------------------------------------- runs

  datatype Op = DoMalloc(size: u32, align: u32, above: u32) | DoFree(addr: u32)

  /** The calls the code survives: an allocation whose cuts fit the block it finds, and `free` while something
      is allocated. */
  predicate Legal(st: State, op: Op) {
    match op
    case DoMalloc(size, align, above) => Cuttable(st, size, align, above)
    case DoFree(_) => st.used != []
  }

  /** A plain `malloc` is legal whenever it finds a block and its size is neither 0 nor 0xFFFFFFFF. */
  lemma PlainMallocIsLegal(st: State, size: u32)
    requires Within(st.free, 0, WINDOW)
    ensures Legal(st, DoMalloc(size, 1, 0)) <==> 1 <= size < WORD - 1 && Available(st, size)
  {
  }

  ghost function Step(st: State, op: Op): State
    requires Legal(st, op) && Within(st.free, 0, WINDOW)
  {
    match op
    case DoMalloc(size, align, above) => MallocAbove(st, size, align, above).state
    case DoFree(addr) => Free(st, addr)
  }

  /** `st'` is reached from `st` by the calls `ops`, each legal when it is made. */
  ghost predicate Run(st: State, ops: seq<Op>, st': State)
    decreases |ops|
  {
    if ops == [] then st == st'
    else Within(st.free, 0, WINDOW) && Legal(st, ops[0]) && Run(Step(st, ops[0]), ops[1..], st')
  }

  /** In every run of allocations, plain, aligned or bounded, and of `free` the blocks keep partitioning the
      addresses managed at the start, in canonical form and with the highest address free. */
  lemma {:induction false} RunKeepsInv(st: State, ops: seq<Op>, st': State, managed: iset<int>)
    requires Inv(st, managed) && Run(st, ops, st')
    ensures Inv(st', managed)
    decreases |ops|
  {
    if ops == [] {
    } else {
      match ops[0] {
        case DoMalloc(size, align, above) => MallocAboveKeepsInv(st, managed, size, align, above);
        case DoFree(addr) => FreeKeepsInv(st, managed, addr);
      }
      RunKeepsInv(Step(st, ops[0]), ops[1..], st', managed);
    }
  }

  /** A block in use stays in use as long as no call frees its base. */
  lemma StepKeepsOthers(st: State, op: Op, managed: iset<int>, b: Block)
    requires Inv(st, managed) && Legal(st, op) && b in st.used && (op.DoFree? ==> op.addr != b.base)
    ensures b in Step(st, op).used
  {
    match op
    case DoMalloc(size, align, above) =>
    case DoFree(addr) =>
      var k := FirstAt(st.used, addr);
      if k < |st.used| {
        DeleteKeepsOthers(st.used, k, b);
      }
  }

  lemma DeleteKeepsOthers(s: seq<Block>, k: nat, b: Block)
    requires k < |s| && b in s && s[k] != b
    ensures b in Delete(s, k)
  {
    var i :| 0 <= i < |s| && s[i] == b;
    assert Delete(s, k)[if i < k then i else i - 1] == b;
  }

  /** In every run a block in use whose base is never freed is still in use at the end. */
  lemma {:induction false} RunKeepsUnfreedBlocks(st: State, ops: seq<Op>, st': State, managed: iset<int>, b: Block)
    requires Inv(st, managed) && Run(st, ops, st') && b in st.used
    requires forall i :: 0 <= i < |ops| && ops[i].DoFree? ==> ops[i].addr != b.base
    ensures b in st'.used
    decreases |ops|
  {
    if ops == [] {
    } else {
      StepKeepsOthers(st, ops[0], managed, b);
      RunKeepsInv(st, ops[..1], Step(st, ops[0]), managed);
      RunKeepsUnfreedBlocks(Step(st, ops[0]), ops[1..], st', managed, b);
    }
  }

  /** The free list is determined by the addresses managed and those in use. */
  lemma FreeListIsDetermined(st: State, st': State, managed: iset<int>)
    requires Inv(st, managed) && Inv(st', managed) && Addrs(st.used) == Addrs(st'.used)
    ensures st.free == st'.free
  {
    FreeIsRest(st, managed);
    FreeIsRest(st', managed);
    CanonicalIsUnique(st.free, st'.free);
  }

  lemma FreeIsRest(st: State, managed: iset<int>)
    requires Inv(st, managed)
    ensures Addrs(st.free) == managed - Addrs(st.used)
  {
    forall a | a in Addrs(st.used)
      ensures a !in Addrs(st.free)
    {
      var k :| 0 <= k < |st.used| && st.used[k].Has(a);
      ApartIsUncovered(st.free, st.used[k], a);
    }
  }

  /** Whatever was allocated and in whatever order it was freed: once the same addresses are in use again, the
      free list is, block for block, the one the run started from. */
  lemma RunRestoresFreeList(st: State, ops: seq<Op>, st': State, managed: iset<int>)
    requires Inv(st, managed) && Run(st, ops, st')
    ensures Addrs(st.used) == Addrs(st'.used) ==> st'.free == st.free
    ensures st.used == st'.used ==> st' == st
  {
    RunKeepsInv(st, ops, st', managed);
    if Addrs(st.used) == Addrs(st'.used) {
      FreeListIsDetermined(st, st', managed);
    }
  }

  /** Freeing the block just allocated restores both lists exactly, whatever was cut off in front of it. */
  lemma FreeUndoesMalloc(st: State, managed: iset<int>, size: u32, align: u32, above: u32)
    requires Inv(st, managed) && Cuttable(st, size, align, above)
    ensures var r := MallocAbove(st, size, align, above);
            Inv(r.state, managed) && Free(r.state, r.addr) == st
  {
    var r := MallocAbove(st, size, align, above);
    MallocAboveKeepsInv(st, managed, size, align, above);
    FreeUndoesLast(st, r.state, managed, Block(r.addr, size));
  }

  lemma FreeUndoesLast(st: State, st': State, managed: iset<int>, b: Block)
    requires Inv(st, managed) && Inv(st', managed) && st'.used == st.used + [b]
    ensures Free(st', b.base) == st
  {
    var k := |st.used|;
    assert st'.used[k] == b && Delete(st'.used, k) == st.used;
    FreeReturnsBlock(st', managed, k);
    FreeKeepsInv(st', managed, b.base);
    FreeListIsDetermined(st, Free(st', b.base), managed);
  }

  /** In a valid state the last used block is disjoint from the others and managed. */
  lemma LastUsedIsApart(st: State, managed: iset<int>, used: seq<Block>, b: Block)
    requires Inv(st, managed) && st.used == used + [b]
    ensures forall k :: 0 <= k < |used| ==> used[k].Apart(b)
    ensures forall a :: b.Has(a) ==> a in managed
  {
    var n := |used|;
    assert st.used[n] == b;
    forall k | 0 <= k < n
      ensures used[k].Apart(b)
    {
      assert st.used[k].Apart(st.used[n]);
    }
    forall a | b.Has(a)
      ensures a in managed
    {
      assert st.used[n].Has(a);
      assert a in Addrs(st.used);
    }
  }

  /** `r` hands out a block that is managed and disjoint from every block in use in `st`. */
  ghost predicate HandsOutFresh(st: State, r: Outcome, size: u32, managed: iset<int>) {
    var b := Block(r.addr, size);
    && r.state.used == st.used + [b]
    && (forall k :: 0 <= k < |st.used| ==> st.used[k].Apart(b))
    && (forall a :: b.Has(a) ==> a in managed)
  }

  lemma TakeHandsOutFresh(st: State, managed: iset<int>, size: u32, i: nat, gap: bool)
    requires i < |st.free| && Inv(TakeFrom(st, size, i, gap).state, managed)
    ensures HandsOutFresh(st, TakeFrom(st, size, i, gap), size, managed)
  {
    var r := TakeFrom(st, size, i, gap);
    LastUsedIsApart(r.state, managed, st.used, Block(r.addr, size));
  }

  /** A live block is never handed out again, in any run. */
  lemma RunNeverReissues(st: State, ops: seq<Op>, st': State, managed: iset<int>, size: u32, align: u32, above: u32)
    requires Inv(st, managed) && Run(st, ops, st')
    requires Within(st'.free, 0, WINDOW) && Cuttable(st', size, align, above)
    ensures HandsOutFresh(st', MallocAbove(st', size, align, above), size, managed)
  {
    RunKeepsInv(st, ops, st', managed);
    MallocAboveKeepsInv(st', managed, size, align, above);
    var i := FirstFit(st'.free, Wrap(size + align), above);
    TakeHandsOutFresh(st', managed, size, i, NeedsGap(st'.free[i].base, align, above));
  }
}
