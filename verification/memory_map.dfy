/** The Multiboot memory map as bytes: the entries read back are the entries written. */
module MemoryMap {
  import opened Word
  import opened FrameModel

  /** Least significant byte first. */
  function Word32(x: u32): (s: seq<u32>)
    ensures |s| == 4 && Bytes(s)
  {
    [x % 0x100, x / 0x100 % 0x100, x / 0x1_0000 % 0x100, x / 0x100_0000]
  }

  function Word64(x: nat): (s: seq<u32>)
    requires x < WORD * WORD
    ensures |s| == 8 && Bytes(s)
  {
    Word32(x % WORD) + Word32(x / WORD)
  }

  /** An entry, and whatever a boot loader puts behind its fields. */
  datatype Item = Item(base: nat, length: nat, kind: u32, pad: seq<u32>) {
    predicate Valid() {
      base < WORD * WORD && length < WORD * WORD && Bytes(pad) && 20 + |pad| < WORD
    }

    function Fields(): Entry
      requires Valid()
    {
      Entry(base % WORD, base / WORD, length % WORD, length / WORD, kind)
    }

    /** Frame `f` lies wholly inside, and is memory to use. */
    predicate Holds(f: nat) {
      kind == 1 && base <= f * PAGE && (f + 1) * PAGE <= base + length
    }
  }

  predicate AllValid(es: seq<Item>) {
    forall i :: 0 <= i < |es| ==> es[i].Valid()
  }

  /** The size of what follows, then base and length of 64 bits and the kind (Multiboot Specification 0.6.96,
      section 3.3, the buffer of `mmap_addr`). */
  function Encoded(e: Item): (s: seq<u32>)
    requires e.Valid()
    ensures Bytes(s) && |s| == 24 + |e.pad|
  {
    Word32(20 + |e.pad|) + Word64(e.base) + Word64(e.length) + Word32(e.kind) + e.pad
  }

  function Encode(es: seq<Item>): (s: seq<u32>)
    requires AllValid(es)
    ensures Bytes(s)
  {
    if es == [] then [] else Encoded(es[0]) + Encode(es[1..])
  }

  function AllFields(es: seq<Item>): (s: seq<Entry>)
    requires AllValid(es)
    ensures |s| == |es| && forall i :: 0 <= i < |es| ==> s[i] == es[i].Fields()
  {
    if es == [] then [] else [es[0].Fields()] + AllFields(es[1..])
  }

  lemma BytesOfWord(x: u32)
    ensures x == x % 0x100 + 0x100 * (x / 0x100 % 0x100) + 0x1_0000 * (x / 0x1_0000 % 0x100)
               + 0x100_0000 * (x / 0x100_0000)
  {
    var a, b := x / 0x100, x / 0x1_0000;
    assert a / 0x100 == b && b / 0x100 == x / 0x100_0000;
  }

  /** Four bytes are read back as the word they were written for, wherever they stand. */
  lemma WordRoundTrip(a: seq<u32>, x: u32, b: seq<u32>)
    requires Bytes(a) && Bytes(b)
    ensures U32At(a + Word32(x) + b, |a|) == x
  {
    var m := a + Word32(x) + b;
    BytesOfWord(x);
    assert m[|a|] == Word32(x)[0] && m[|a| + 1] == Word32(x)[1];
    assert m[|a| + 2] == Word32(x)[2] && m[|a| + 3] == Word32(x)[3];
  }

  lemma {:induction false} WordsRead(a: seq<u32>, ws: seq<u32>, b: seq<u32>, k: nat)
    requires Bytes(a) && Bytes(b) && k < |ws|
    ensures Bytes(Words(ws)) && |Words(ws)| == 4 * |ws|
    ensures U32At(a + Words(ws) + b, |a| + 4 * k) == ws[k]
    decreases |ws|
  {
    var first, rest := Word32(ws[0]), Words(ws[1..]);
    assert a + Words(ws) + b == a + first + (rest + b);
    if k == 0 {
      WordRoundTrip(a, ws[0], rest + b);
    } else {
      assert a + Words(ws) + b == (a + first) + rest + b;
      WordsRead(a + first, ws[1..], b, k - 1);
    }
  }

  function Words(ws: seq<u32>): (s: seq<u32>)
    ensures Bytes(s) && |s| == 4 * |ws|
  {
    if ws == [] then [] else Word32(ws[0]) + Words(ws[1..])
  }

  /** An item is six words and its padding. */
  function SixWords(e: Item): (ws: seq<u32>)
    requires e.Valid()
    ensures |ws| == 6
  {
    [20 + |e.pad|, e.base % WORD, e.base / WORD, e.length % WORD, e.length / WORD, e.kind]
  }

  lemma EncodedInWords(e: Item)
    requires e.Valid()
    ensures Encoded(e) == Words(SixWords(e)) + e.pad
  {
    var bl, bh, ll, lh := e.base % WORD, e.base / WORD, e.length % WORD, e.length / WORD;
    OneMoreWord(e.kind, []);
    OneMoreWord(lh, [e.kind]);
    OneMoreWord(ll, [lh, e.kind]);
    OneMoreWord(bh, [ll, lh, e.kind]);
    OneMoreWord(bl, [bh, ll, lh, e.kind]);
    OneMoreWord(20 + |e.pad|, [bl, bh, ll, lh, e.kind]);
  }

  lemma OneMoreWord(x: u32, ws: seq<u32>)
    ensures Words([x] + ws) == Word32(x) + Words(ws)
  {
    assert ([x] + ws)[1..] == ws;
  }

  /** Six words in a row are what the walk reads as an entry. */
  lemma ReadWords(m: seq<u32>, a: seq<u32>, ws: seq<u32>, b: seq<u32>)
    requires Bytes(m) && Bytes(a) && Bytes(b) && |ws| == 6 && m == a + Words(ws) + b
    ensures |a| + 24 <= |m| && U32At(m, |a|) == ws[0]
    ensures EntryAt(m, |a|) == Entry(ws[1], ws[2], ws[3], ws[4], ws[5])
  {
    WordsRead(a, ws, b, 0);
    WordsRead(a, ws, b, 1);
    WordsRead(a, ws, b, 2);
    WordsRead(a, ws, b, 3);
    WordsRead(a, ws, b, 4);
    WordsRead(a, ws, b, 5);
  }

  lemma ReadItem(m: seq<u32>, pre: seq<u32>, e: Item, rest: seq<u32>)
    requires Bytes(m) && Bytes(pre) && Bytes(rest) && e.Valid() && m == pre + Encoded(e) + rest
    ensures |pre| + 24 <= |m| && U32At(m, |pre|) == 20 + |e.pad| && EntryAt(m, |pre|) == e.Fields()
  {
    EncodedInWords(e);
    assert m == pre + Words(SixWords(e)) + (e.pad + rest);
    ReadWords(m, pre, SixWords(e), e.pad + rest);
  }

  lemma NextItem(m: seq<u32>, o: nat, next: nat, es: seq<Entry>, e: Entry)
    requires Bytes(m) && o + 24 <= |m| && next <= |m| && next == o + U32At(m, o) + 4 && EntryAt(m, o) == e
    requires Tiled(m, next) && Entries(m, next) == es
    ensures Tiled(m, o) && Entries(m, o) == [e] + es
  {
  }

  /** Whatever entries are written, with whatever padding, the walk over the map reads back exactly them. */
  lemma {:induction false} MapRoundTrip(m: seq<u32>, pre: seq<u32>, es: seq<Item>)
    requires Bytes(m) && Bytes(pre) && AllValid(es) && m == pre + Encode(es)
    ensures Tiled(m, |pre|) && Entries(m, |pre|) == AllFields(es)
    decreases |es|
  {
    if es == [] {
      assert m == pre;
    } else {
      var s, rest := Encoded(es[0]), Encode(es[1..]);
      assert m == (pre + s) + rest;
      MapRoundTrip(m, pre + s, es[1..]);
      ItemThenRest(m, pre, es[0], rest, AllFields(es[1..]));
    }
  }

  lemma ItemThenRest(m: seq<u32>, pre: seq<u32>, e: Item, rest: seq<u32>, es: seq<Entry>)
    requires Bytes(m) && Bytes(pre) && Bytes(rest) && e.Valid() && m == pre + Encoded(e) + rest
    requires Tiled(m, |pre + Encoded(e)|) && Entries(m, |pre + Encoded(e)|) == es
    ensures Tiled(m, |pre|) && Entries(m, |pre|) == [e.Fields()] + es
  {
    ReadItem(m, pre, e, rest);
    NextItem(m, |pre|, |pre + Encoded(e)|, es, e.Fields());
  }

  lemma EncodedIsRead(es: seq<Item>)
    requires AllValid(es)
    ensures Tiled(Encode(es), 0) && Entries(Encode(es), 0) == AllFields(es)
  {
    MapRoundTrip(Encode(es), [], es);
  }

  lemma FieldsHold(e: Item, f: nat)
    requires e.Valid()
    ensures e.Fields().Available(f) <==> e.Holds(f)
  {
    assert e.Fields().Base() == e.base && e.Fields().End() == e.base + e.length;
  }

  /** The frames freed for a map written from plain items shorter than 4 GB are those that lie wholly inside an
      item of kind 1. */
  lemma {:induction false} EncodedFreesExactly(es: seq<Item>, f: nat)
    requires AllValid(es) && PlainMap(AllFields(es))
    ensures Tiled(Encode(es), 0)
    ensures Freed(Entries(Encode(es), 0), f) <==> exists i :: 0 <= i < |es| && es[i].Holds(f)
  {
    EncodedIsRead(es);
    PlainMapIsFreedExactly(AllFields(es), f);
    forall i | 0 <= i < |es|
      ensures AllFields(es)[i].Available(f) <==> es[i].Holds(f)
    {
      FieldsHold(es[i], f);
    }
    if i: nat :| i < |es| && es[i].Holds(f) {
      assert AllFields(es)[i].Available(f);
    }
  }
}
