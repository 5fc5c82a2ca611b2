/** Blocks of virtual addresses and the address sets they stand for.

    The allocator keeps its free memory as a list of (base, size) records. This module says what such a
    list means (the set of addresses it covers), when it is in canonical form (sorted, no empty block, a
    gap after every block), and that merging adjacent neighbours until none is left computes the one
    canonical list with the same meaning. */
module Blocks {

  datatype Block = Block(base: int, size: int) {
    function End(): int { base + size }

    predicate Has(a: int) { base <= a < End() }

    /** Two blocks that share no address, seen from their bounds alone. */
    predicate Apart(other: Block) { End() <= other.base || other.End() <= base }
  }

  ghost predicate Covers(s: seq<Block>, a: int) {
    exists i :: 0 <= i < |s| && s[i].Has(a)
  }

  ghost function Addrs(s: seq<Block>): iset<int> {
    iset a: int | Covers(s, a)
  }

  /** The addresses of one block. */
  ghost function Span(b: Block): iset<int> {
    iset a: int | b.Has(a)
  }

  /** All of [a, a + n] is covered. */
  ghost predicate Stretch(s: seq<Block>, a: int, n: nat) {
    forall x :: a <= x <= a + n ==> Covers(s, x)
  }

  ghost predicate Sized(s: seq<Block>) {
    forall i :: 0 <= i < |s| ==> s[i].size >= 1
  }

  /** Sorted by address, no overlap; neighbours may touch. */
  ghost predicate Ordered(s: seq<Block>) {
    Sized(s) && forall i, j :: 0 <= i < j < |s| ==> s[i].End() <= s[j].base
  }

  /** Sorted, disjoint and maximally coalesced. */
  ghost predicate Canonical(s: seq<Block>) {
    Sized(s) && forall i, j :: 0 <= i < j < |s| ==> s[i].End() < s[j].base
  }

  ghost predicate Within(s: seq<Block>, lo: int, hi: int) {
    forall i :: 0 <= i < |s| ==> lo <= s[i].base && s[i].End() <= hi
  }

  // ---------------------------------------------------------------- meaning of a canonical list

  /** The first address after a block of a canonical list is not covered by any block. */
  lemma EndIsGap(s: seq<Block>, i: nat)
    requires Canonical(s) && i < |s|
    ensures !Covers(s, s[i].End())
  {
  }

  /** A stretch of covered addresses lies in a single block. */
  lemma StretchInOneBlock(s: seq<Block>, a: int, n: nat) returns (k: nat)
    requires Canonical(s)
    requires Stretch(s, a, n)
    ensures k < |s| && s[k].base <= a && a + n < s[k].End()
  {
    assert Covers(s, a);
    k :| 0 <= k < |s| && s[k].Has(a);
    if s[k].End() <= a + n {
      assert Covers(s, s[k].End());
      EndIsGap(s, k);
    }
  }

  lemma TailCovers(s: seq<Block>, a: int)
    requires Canonical(s) && s != []
    ensures Covers(s[1..], a) <==> Covers(s, a) && !s[0].Has(a)
  {
  }

  lemma LowestBase(s: seq<Block>, t: seq<Block>)
    requires Canonical(s) && Canonical(t) && s != [] && Addrs(s) == Addrs(t)
    ensures t != [] && t[0].base <= s[0].base
  {
    assert s[0].Has(s[0].base);
    assert s[0].base in Addrs(s);
    assert Covers(t, s[0].base);
    var j :| 0 <= j < |t| && t[j].Has(s[0].base);
    if 0 < j {
      assert t[0].End() < t[j].base;
    }
  }

  lemma HeadEndsNoLater(s: seq<Block>, t: seq<Block>)
    requires Canonical(s) && Canonical(t) && s != [] && t != []
    requires Addrs(s) == Addrs(t) && s[0].base == t[0].base
    ensures t[0].End() <= s[0].End()
  {
    EndIsGap(s, 0);
    assert s[0].End() !in Addrs(t);
    assert !Covers(t, s[0].End());
    assert !t[0].Has(s[0].End());
  }

  /** A canonical list is determined by the set of addresses it covers. */
  lemma {:induction false} CanonicalIsUnique(s: seq<Block>, t: seq<Block>)
    requires Canonical(s) && Canonical(t)
    requires Addrs(s) == Addrs(t)
    ensures s == t
  {
    if s == [] {
      if t != [] {
        LowestBase(t, s);
      }
    } else {
      LowestBase(s, t);
      LowestBase(t, s);
      HeadEndsNoLater(s, t);
      HeadEndsNoLater(t, s);
      assert s[0] == t[0];
      forall a
        ensures Covers(s[1..], a) <==> Covers(t[1..], a)
      {
        TailCovers(s, a);
        TailCovers(t, a);
        assert a in Addrs(s) <==> a in Addrs(t);
      }
      assert Addrs(s[1..]) == Addrs(t[1..]);
      CanonicalIsUnique(s[1..], t[1..]);
      assert s == [s[0]] + s[1..] && t == [t[0]] + t[1..];
    }
  }

  // ---------------------------------------------------------------- coalescing

  predicate AdjacentAt(s: seq<Block>, i: int) {
    0 <= i && i + 1 < |s| && s[i].End() == s[i + 1].base
  }

  /** The first index at or after `from` whose block touches its successor, or |s|. */
  function FirstAdjacent(s: seq<Block>, from: nat): (r: nat)
    requires from <= |s|
    ensures from <= r <= |s|
    ensures r < |s| ==> AdjacentAt(s, r)
    ensures forall i :: from <= i < r ==> !AdjacentAt(s, i)
    decreases |s| - from
  {
    if from == |s| || AdjacentAt(s, from) then from else FirstAdjacent(s, from + 1)
  }

  lemma FirstAdjacentFrom(s: seq<Block>, i: nat)
    requires i <= FirstAdjacent(s, 0) && i < |s|
    ensures if AdjacentAt(s, i) then FirstAdjacent(s, 0) == i else i < FirstAdjacent(s, 0)
  {
  }

  function Merge(s: seq<Block>, i: nat): seq<Block>
    requires i + 1 < |s|
  {
    s[..i] + [Block(s[i].base, s[i].size + s[i + 1].size)] + s[i + 2..]
  }

  /** Merge the first touching pair until no pair touches. */
  function Compact(s: seq<Block>): seq<Block>
    decreases |s|
  {
    var i := FirstAdjacent(s, 0);
    if i == |s| then s else Compact(Merge(s, i))
  }

  lemma MergeIndex(s: seq<Block>, i: nat)
    requires i + 1 < |s|
    ensures |Merge(s, i)| == |s| - 1
    ensures forall k :: 0 <= k < i ==> Merge(s, i)[k] == s[k]
    ensures Merge(s, i)[i] == Block(s[i].base, s[i].size + s[i + 1].size)
    ensures forall k :: i < k < |s| - 1 ==> Merge(s, i)[k] == s[k + 1]
  {
  }

  lemma MergeCovers(s: seq<Block>, i: nat, a: int)
    requires Ordered(s) && AdjacentAt(s, i)
    ensures Covers(Merge(s, i), a) <==> Covers(s, a)
  {
    var m := Merge(s, i);
    MergeIndex(s, i);
    if Covers(m, a) {
      var k :| 0 <= k < |m| && m[k].Has(a);
      if k < i {
        assert s[k].Has(a);
      } else if k == i {
        assert s[i].Has(a) || s[i + 1].Has(a);
      } else {
        assert s[k + 1].Has(a);
      }
    }
    if Covers(s, a) {
      var k :| 0 <= k < |s| && s[k].Has(a);
      assert s[i].size >= 1 && s[i + 1].size >= 1;
      if k < i {
        assert m[k].Has(a);
      } else if k <= i + 1 {
        assert m[i].Has(a);
      } else {
        assert m[k - 1].Has(a);
      }
    }
  }

  lemma MergeKeepsOrder(s: seq<Block>, i: nat)
    requires Ordered(s) && AdjacentAt(s, i)
    ensures Ordered(Merge(s, i)) && Addrs(Merge(s, i)) == Addrs(s)
    ensures forall lo, hi :: Within(s, lo, hi) ==> Within(Merge(s, i), lo, hi)
  {
    var m := Merge(s, i);
    MergeIndex(s, i);
    assert s[i].size >= 1 && s[i + 1].size >= 1;
    assert m[i].End() == s[i + 1].End();
    forall j, k | 0 <= j < k < |m|
      ensures m[j].End() <= m[k].base
    {
      var j' := if j < i then j else j + 1;
      var k' := if k <= i then k else k + 1;
      assert m[j].End() == s[j'].End() && m[k].base == s[k'].base;
    }
    forall lo, hi | Within(s, lo, hi)
      ensures Within(m, lo, hi)
    {
      forall k | 0 <= k < |m|
        ensures lo <= m[k].base && m[k].End() <= hi
      {
        var k' := if k < i then k else k + 1;
        var b' := if k <= i then k else k + 1;
        assert m[k].End() == s[k'].End() && m[k].base == s[b'].base;
      }
    }
    forall a
      ensures Covers(m, a) <==> Covers(s, a)
    {
      MergeCovers(s, i, a);
    }
  }

  lemma NoTouchIsCanonical(s: seq<Block>)
    requires Ordered(s)
    requires forall i :: 0 <= i < |s| ==> !AdjacentAt(s, i)
    ensures Canonical(s)
  {
    forall i, j | 0 <= i < j < |s|
      ensures s[i].End() < s[j].base
    {
      assert !AdjacentAt(s, i);
      assert s[i].End() <= s[i + 1].base;
      if i + 1 < j {
        assert s[i + 1].End() <= s[j].base && s[i + 1].size >= 1;
      }
    }
  }

  /** Coalescing keeps the meaning and ends in canonical form; it is therefore the canonical form. */
  lemma {:induction false} CompactIsCanonicalForm(s: seq<Block>)
    requires Ordered(s)
    ensures Canonical(Compact(s)) && Addrs(Compact(s)) == Addrs(s)
    ensures forall t :: Canonical(t) && Addrs(t) == Addrs(s) ==> t == Compact(s)
    decreases |s|
  {
    var i := FirstAdjacent(s, 0);
    if i == |s| {
      NoTouchIsCanonical(s);
    } else {
      MergeKeepsOrder(s, i);
      CompactIsCanonicalForm(Merge(s, i));
    }
    forall t | Canonical(t) && Addrs(t) == Addrs(s)
      ensures t == Compact(s)
    {
      CanonicalIsUnique(t, Compact(s));
    }
  }

  // ---------------------------------------------------------------- list surgery and address sets

  function Insert(s: seq<Block>, pos: nat, b: Block): seq<Block>
    requires pos <= |s|
  {
    s[..pos] + [b] + s[pos..]
  }

  function Delete(s: seq<Block>, k: nat): seq<Block>
    requires k < |s|
  {
    s[..k] + s[k + 1..]
  }

  lemma SizesAdd(s: seq<Block>, i: nat)
    requires Ordered(s) && AdjacentAt(s, i)
    ensures forall lo, hi :: Within(s, lo, hi) ==> s[i].size + s[i + 1].size <= hi - lo
  {
  }

  lemma MergeByDeleting(s: seq<Block>, i: nat)
    requires i + 1 < |s|
    ensures Delete(s[i := Block(s[i].base, s[i].size + s[i + 1].size)], i + 1) == Merge(s, i)
  {
  }

  lemma InsertAddrs(s: seq<Block>, pos: nat, b: Block)
    requires pos <= |s|
    ensures Addrs(Insert(s, pos, b)) == Addrs(s) + Span(b)
  {
    var t := Insert(s, pos, b);
    assert t[pos] == b;
    forall a
      ensures Covers(t, a) <==> Covers(s, a) || b.Has(a)
    {
      if Covers(t, a) {
        var i :| 0 <= i < |t| && t[i].Has(a);
        if i < pos {
          assert s[i].Has(a);
        } else if pos < i {
          assert s[i - 1].Has(a);
        }
      }
      if Covers(s, a) {
        var i :| 0 <= i < |s| && s[i].Has(a);
        if i < pos {
          assert t[i].Has(a);
        } else {
          assert t[i + 1].Has(a);
        }
      }
      if b.Has(a) {
        assert t[pos].Has(a);
      }
    }
  }

  lemma DeleteAddrs(s: seq<Block>, k: nat)
    requires k < |s|
    requires forall i :: 0 <= i < |s| && i != k ==> s[i].Apart(s[k])
    requires Sized(s)
    ensures Addrs(Delete(s, k)) == Addrs(s) - Span(s[k])
  {
    var t := Delete(s, k);
    forall a
      ensures Covers(t, a) <==> Covers(s, a) && !s[k].Has(a)
    {
      if Covers(t, a) {
        var i :| 0 <= i < |t| && t[i].Has(a);
        var i' := if i < k then i else i + 1;
        assert t[i] == s[i'] && s[i'].Apart(s[k]);
      }
      if Covers(s, a) && !s[k].Has(a) {
        var i :| 0 <= i < |s| && s[i].Has(a);
        assert t[if i < k then i else i - 1].Has(a);
      }
    }
  }

  /** Replacing one block of a canonical list by a non-empty suffix of it. */
  lemma TrimFront(s: seq<Block>, i: nat, n: int)
    requires Canonical(s) && i < |s| && 0 <= n < s[i].size
    ensures Canonical(s[i := Block(s[i].base + n, s[i].size - n)])
    ensures Addrs(s[i := Block(s[i].base + n, s[i].size - n)]) == Addrs(s) - Span(Block(s[i].base, n))
  {
    var t := s[i := Block(s[i].base + n, s[i].size - n)];
    forall a
      ensures Covers(t, a) <==> Covers(s, a) && !(s[i].base <= a < s[i].base + n)
    {
      if Covers(t, a) {
        var k :| 0 <= k < |t| && t[k].Has(a);
        assert s[k].Has(a);
        if k < i {
          assert s[k].End() < s[i].base;
        } else if i < k {
          assert s[i].End() < s[k].base;
        }
      }
      if Covers(s, a) && !(s[i].base <= a < s[i].base + n) {
        var k :| 0 <= k < |s| && s[k].Has(a);
        assert t[k].Has(a);
      }
    }
  }
}
