/** The intrusive doubly linked list.

    Nodes are not language objects: they are records carved by address arithmetic out of one stretch of
    memory, so that memory is a map from address to record, which the operations update in place, and a
    pointer is an address, NULL being 0. Each operation is proved to be the sequence operation it stands for
    and to write nothing but links of its own list; it never reads the old links of a node being inserted,
    so a recycled node with stale links is fine. */
module LinkedList {
  import opened Word

  datatype Record = Record(prev: u32, next: u32, virtAddr: u32, size: u32)

  type Memory = map<u32, Record>

  /** The address at position `i` of `s`, NULL outside it. */
  function At(s: seq<u32>, i: int): u32 {
    if 0 <= i < |s| then s[i] else 0
  }

  predicate Differ(s: seq<u32>, i: nat, j: nat)
    requires i < |s| && j < |s|
  {
    s[i] != s[j]
  }

  ghost predicate Distinct(s: seq<u32>) {
    forall i, j :: 0 <= i < j < |s| ==> Differ(s, i, j)
  }

  /** The record at position `i` of `s` is there and its links lead to its neighbours. */
  predicate Linked(mem: Memory, s: seq<u32>, i: nat)
    requires i < |s|
  {
    s[i] != 0 && s[i] in mem && mem[s[i]].prev == At(s, i - 1) && mem[s[i]].next == At(s, i + 1)
  }

  /** The records at the addresses `s` form, in this order, the list with the given ends. */
  ghost predicate IsList(mem: Memory, first: u32, last: u32, s: seq<u32>) {
    && Distinct(s)
    && first == At(s, 0) && last == At(s, |s| - 1)
    && (forall i :: 0 <= i < |s| ==> Linked(mem, s, i))
  }

  /** No record outside `touched` changed. */
  ghost predicate SameOutside(mem: Memory, mem': Memory, touched: seq<u32>) {
    forall a :: a in mem && a !in touched ==> a in mem' && mem'[a] == mem[a]
  }

  /** Between `mem` and `mem'` nothing changed but links of records in `touched`. */
  ghost predicate OnlyLinks(mem: Memory, mem': Memory, touched: seq<u32>) {
    && mem'.Keys == mem.Keys
    && SameOutside(mem, mem', touched)
    && (forall a :: a in mem ==> mem'[a].virtAddr == mem[a].virtAddr && mem'[a].size == mem[a].size)
  }

  predicate NotBoth(a: u32, s: seq<u32>, t: seq<u32>) {
    !(a in s && a in t)
  }

  ghost predicate Disjoint(s: seq<u32>, t: seq<u32>) {
    forall a: u32 :: NotBoth(a, s, t)
  }

  /** A list none of whose nodes was touched is still that list. */
  lemma DisjointListKept(mem: Memory, mem': Memory, touched: seq<u32>, first: u32, last: u32, s: seq<u32>)
    requires IsList(mem, first, last, s)
    requires SameOutside(mem, mem', touched) && Disjoint(s, touched)
    ensures IsList(mem', first, last, s)
  {
    forall i | 0 <= i < |s|
      ensures Linked(mem', s, i)
    {
      assert Linked(mem, s, i) && s[i] in s && NotBoth(s[i], s, touched);
    }
  }

  /** A list does not depend on the data its records hold. */
  lemma DataIsNotLinks(mem: Memory, mem': Memory, first: u32, last: u32, s: seq<u32>)
    requires IsList(mem, first, last, s)
    requires forall a :: a in mem ==> a in mem' && mem'[a].prev == mem[a].prev && mem'[a].next == mem[a].next
    ensures IsList(mem', first, last, s)
  {
    forall i | 0 <= i < |s|
      ensures Linked(mem', s, i)
    {
      assert Linked(mem, s, i);
    }
  }

  lemma SamePlace(s: seq<u32>, i: nat, j: nat)
    requires Distinct(s) && i < |s| && j < |s| && s[i] == s[j]
    ensures i == j
  {
    assert i < j ==> Differ(s, i, j);
    assert j < i ==> Differ(s, j, i);
  }

  function InsertAt(s: seq<u32>, i: nat, a: u32): seq<u32>
    requires i <= |s|
  {
    s[..i] + [a] + s[i..]
  }

  function RemoveAt(s: seq<u32>, i: nat): seq<u32>
    requires i < |s|
  {
    s[..i] + s[i + 1..]
  }

  /** The writes that link `a` in between positions i-1 and i of `s`, and no others. */
  ghost predicate LinkedIn(mem: Memory, mem': Memory, s: seq<u32>, i: nat, a: u32)
    requires i <= |s|
  {
    var before, after := At(s, i - 1), At(s, i);
    && mem'.Keys == mem.Keys && a in mem
    && mem'[a] == mem[a].(prev := before, next := after)
    && (0 < i ==> before in mem && mem'[before] == mem[before].(next := a))
    && (i < |s| ==> after in mem && mem'[after] == mem[after].(prev := a))
    && (forall x :: x in mem && x != a && !(0 < i && x == before) && !(i < |s| && x == after) ==> mem'[x] == mem[x])
  }

  lemma LinkInKeepsLinks(mem: Memory, mem': Memory, first: u32, last: u32, s: seq<u32>, i: nat, a: u32, j: nat)
    requires IsList(mem, first, last, s) && i <= |s| && a !in s && a != 0
    requires LinkedIn(mem, mem', s, i, a) && j < |s|
    ensures Linked(mem', InsertAt(s, i, a), if j < i then j else j + 1)
  {
    var t := InsertAt(s, i, a);
    assert Linked(mem, s, j) && s[j] in s;
    if 0 < i && s[j] == s[i - 1] {
      SamePlace(s, j, i - 1);
    } else if i < |s| && s[j] == s[i] {
      SamePlace(s, j, i);
    }
  }

  lemma LinkInInserts(mem: Memory, mem': Memory, first: u32, last: u32, s: seq<u32>, i: nat, a: u32)
    requires IsList(mem, first, last, s) && i <= |s| && a !in s && a != 0
    requires LinkedIn(mem, mem', s, i, a)
    ensures var t := InsertAt(s, i, a);
            IsList(mem', t[0], t[|s|], t) && OnlyLinks(mem, mem', t)
  {
    var t := InsertAt(s, i, a);
    forall k | 0 <= k < |t|
      ensures Linked(mem', t, k)
    {
      if k < i {
        LinkInKeepsLinks(mem, mem', first, last, s, i, a, k);
      } else if i < k {
        LinkInKeepsLinks(mem, mem', first, last, s, i, a, k - 1);
      }
    }
    forall j, k | 0 <= j < k < |t|
      ensures Differ(t, j, k)
    {
      assert j != i && k != i ==> Differ(s, if j < i then j else j - 1, if k < i then k else k - 1);
    }
    assert t[i] in t;
    assert 0 < i ==> t[i - 1] in t;
    assert i < |s| ==> t[i + 1] in t;
  }

  /** The writes that unlink position `i` of `s`, and no others. */
  ghost predicate LinkedOut(mem: Memory, mem': Memory, s: seq<u32>, i: nat)
    requires i < |s|
  {
    var before, after := At(s, i - 1), At(s, i + 1);
    && mem'.Keys == mem.Keys
    && (0 < i ==> before in mem && mem'[before] == mem[before].(next := after))
    && (i + 1 < |s| ==> after in mem && mem'[after] == mem[after].(prev := before))
    && (forall x :: x in mem && !(0 < i && x == before) && !(i + 1 < |s| && x == after) ==> mem'[x] == mem[x])
  }

  lemma LinkOutKeepsLinks(mem: Memory, mem': Memory, first: u32, last: u32, s: seq<u32>, i: nat, j: nat)
    requires IsList(mem, first, last, s) && i < |s| && LinkedOut(mem, mem', s, i)
    requires j < |s| && j != i
    ensures Linked(mem', RemoveAt(s, i), if j < i then j else j - 1)
  {
    var t := RemoveAt(s, i);
    assert Linked(mem, s, j);
    if 0 < i && s[j] == s[i - 1] {
      SamePlace(s, j, i - 1);
    } else if i + 1 < |s| && s[j] == s[i + 1] {
      SamePlace(s, j, i + 1);
    }
  }

  lemma LinkOutRemoves(mem: Memory, mem': Memory, first: u32, last: u32, s: seq<u32>, i: nat)
    requires IsList(mem, first, last, s) && i < |s| && LinkedOut(mem, mem', s, i)
    ensures var t := RemoveAt(s, i);
            IsList(mem', At(t, 0), At(t, |t| - 1), t) && OnlyLinks(mem, mem', t)
  {
    var t := RemoveAt(s, i);
    forall k | 0 <= k < |t|
      ensures Linked(mem', t, k)
    {
      LinkOutKeepsLinks(mem, mem', first, last, s, i, if k < i then k else k + 1);
    }
    forall j, k | 0 <= j < k < |t|
      ensures Differ(t, j, k)
    {
      assert Differ(s, if j < i then j else j + 1, if k < i then k else k + 1);
    }
    assert 0 < i ==> t[i - 1] in t;
    assert i + 1 < |s| ==> t[i] in t;
  }

  /** The records of all nodes. */
  class Heap {
    var mem: Memory

    constructor ()
      ensures mem == map[]
    {
      mem := map[];
    }

    /** A new record of zeroes. */
    method Create(a: u32)
      modifies this
      ensures mem == old(mem)[a := Record(0, 0, 0, 0)]
    {
      mem := mem[a := Record(0, 0, 0, 0)];
    }

    method SetPrev(a: u32, v: u32)
      requires a in mem
      modifies this
      ensures mem == old(mem)[a := old(mem)[a].(prev := v)]
    {
      mem := mem[a := mem[a].(prev := v)];
    }

    method SetNext(a: u32, v: u32)
      requires a in mem
      modifies this
      ensures mem == old(mem)[a := old(mem)[a].(next := v)]
    {
      mem := mem[a := mem[a].(next := v)];
    }

    method SetData(a: u32, virtAddr: u32, size: u32)
      requires a in mem
      modifies this
      ensures mem == old(mem)[a := old(mem)[a].(virtAddr := virtAddr, size := size)]
    {
      mem := mem[a := mem[a].(virtAddr := virtAddr, size := size)];
    }
  }

  class List {
    const heap: Heap
    var first: u32
    var last: u32
    ghost var nodes: seq<u32>

    ghost predicate Valid()
      reads this, heap
    {
      IsList(heap.mem, first, last, nodes)
    }

    /** Whether this list, with its present ends, was well formed in `mem`. */
    ghost predicate ValidIn(mem: Memory)
      reads this
    {
      IsList(mem, first, last, nodes)
    }

    constructor (heap: Heap)
      ensures this.heap == heap && nodes == [] && Valid()
    {
      this.heap := heap;
      first, last := 0, 0;
      nodes := [];
    }

    method InsertAfter(node: u32, newNode: u32, ghost k: nat)
      requires Valid() && k < |nodes| && nodes[k] == node
      requires newNode !in nodes && newNode in heap.mem && newNode != 0
      modifies this, heap
      ensures Valid() && nodes == InsertAt(old(nodes), k + 1, newNode)
      ensures OnlyLinks(old(heap.mem), heap.mem, nodes)
    {
      assert Linked(heap.mem, nodes, k);
      assert k + 1 < |nodes| ==> Linked(heap.mem, nodes, k + 1) && Differ(nodes, k, k + 1);
      heap.SetPrev(newNode, node);
      heap.SetNext(newNode, heap.mem[node].next);
      if heap.mem[node].next == 0 {
        last := newNode;
      } else {
        heap.SetPrev(heap.mem[node].next, newNode);
      }
      heap.SetNext(node, newNode);
      assert LinkedIn(old(heap.mem), heap.mem, nodes, k + 1, newNode);
      LinkInInserts(old(heap.mem), heap.mem, old(first), old(last), nodes, k + 1, newNode);
      nodes := InsertAt(nodes, k + 1, newNode);
    }

    method InsertBefore(node: u32, newNode: u32, ghost k: nat)
      requires Valid() && k < |nodes| && nodes[k] == node
      requires newNode !in nodes && newNode in heap.mem && newNode != 0
      modifies this, heap
      ensures Valid() && nodes == InsertAt(old(nodes), k, newNode)
      ensures OnlyLinks(old(heap.mem), heap.mem, nodes)
    {
      assert Linked(heap.mem, nodes, k);
      assert 0 < k ==> Linked(heap.mem, nodes, k - 1) && Differ(nodes, k - 1, k);
      heap.SetPrev(newNode, heap.mem[node].prev);
      heap.SetNext(newNode, node);
      if heap.mem[node].prev == 0 {
        first := newNode;
      } else {
        heap.SetNext(heap.mem[node].prev, newNode);
      }
      heap.SetPrev(node, newNode);
      assert LinkedIn(old(heap.mem), heap.mem, nodes, k, newNode);
      LinkInInserts(old(heap.mem), heap.mem, old(first), old(last), nodes, k, newNode);
      nodes := InsertAt(nodes, k, newNode);
    }

    method InsertFirst(newNode: u32)
      requires Valid() && newNode !in nodes && newNode in heap.mem && newNode != 0
      modifies this, heap
      ensures Valid() && nodes == [newNode] + old(nodes)
      ensures OnlyLinks(old(heap.mem), heap.mem, nodes)
    {
      assert nodes != [] ==> Linked(heap.mem, nodes, 0);
      if first == 0 {
        first := newNode;
        last := newNode;
        heap.SetPrev(newNode, 0);
        heap.SetNext(newNode, 0);
        nodes := [newNode];
      } else {
        InsertBefore(first, newNode, 0);
      }
    }

    method InsertLast(newNode: u32)
      requires Valid() && newNode !in nodes && newNode in heap.mem && newNode != 0
      modifies this, heap
      ensures Valid() && nodes == old(nodes) + [newNode]
      ensures OnlyLinks(old(heap.mem), heap.mem, nodes)
    {
      assert nodes != [] ==> Linked(heap.mem, nodes, |nodes| - 1);
      if last == 0 {
        InsertFirst(newNode);
      } else {
        InsertAfter(last, newNode, |nodes| - 1);
      }
    }

    /** The links of the removed node itself are left as they were. */
    method Remove(node: u32, ghost k: nat)
      requires Valid() && k < |nodes| && nodes[k] == node
      modifies this, heap
      ensures Valid() && nodes == RemoveAt(old(nodes), k)
      ensures OnlyLinks(old(heap.mem), heap.mem, nodes)
    {
      assert Linked(heap.mem, nodes, k);
      assert 0 < k ==> Linked(heap.mem, nodes, k - 1);
      assert k + 1 < |nodes| ==> Linked(heap.mem, nodes, k + 1);
      assert 0 < k && k + 1 < |nodes| ==> Differ(nodes, k - 1, k + 1);
      if heap.mem[node].prev == 0 {
        first := heap.mem[node].next;
      } else {
        heap.SetNext(heap.mem[node].prev, heap.mem[node].next);
      }
      if heap.mem[node].next == 0 {
        last := heap.mem[node].prev;
      } else {
        heap.SetPrev(heap.mem[node].next, heap.mem[node].prev);
      }
      assert LinkedOut(old(heap.mem), heap.mem, nodes, k);
      LinkOutRemoves(old(heap.mem), heap.mem, old(first), old(last), nodes, k);
      nodes := RemoveAt(nodes, k);
    }

    /** The node of greatest address, or NULL if the list is empty. */
    method HighestNode() returns (result: u32)
      requires Valid()
      ensures nodes == [] ==> result == 0
      ensures nodes != [] ==> result in nodes && forall i :: 0 <= i < |nodes| ==> nodes[i] <= result
    {
      assert nodes != [] ==> Linked(heap.mem, nodes, 0);
      if first == 0 {
        return 0;
      }
      var candidate := first;
      result := candidate;
      ghost var i := 0;
      while candidate != 0
        invariant 0 <= i <= |nodes| && candidate == At(nodes, i) && (i < |nodes| ==> candidate != 0)
        invariant result in nodes && forall j :: 0 <= j < i ==> nodes[j] <= result
        decreases |nodes| - i
      {
        assert i < |nodes| ==> Linked(heap.mem, nodes, i);
        assert i + 1 < |nodes| ==> Linked(heap.mem, nodes, i + 1);
        if candidate > result {
          result := candidate;
        }
        candidate := heap.mem[candidate].next;
        i := i + 1;
      }
    }
  }
}
