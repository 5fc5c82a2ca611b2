/** The initial RAM disk: a ustar archive (pax, IEEE Std 1003.1), walked header by header. */
module Archive {
  import opened Word
  import opened Numerals

  const BLOCK := 512
  const SIZE_AT := 124                 // where the code looks for the size
  const SIZE_DIGITS := 11

  // ---------------------------------------------------------------- the octal size field

  /** The number an octal field spells, whatever characters it holds, before any wrap. */
  function OctalValue(s: seq<s8>): int {
    if s == [] then 0 else OctalValue(s[..|s| - 1]) * 8 + (s[|s| - 1] as int - 48)
  }

  /** `n` in exactly `w` octal digits. */
  function Octal(n: nat, w: nat): (s: seq<s8>)
    ensures |s| == w
  {
    if w == 0 then [] else Octal(n / 8, w - 1) + [48 + n % 8]
  }

  lemma {:induction false} OctalRoundTrip(n: nat, w: nat)
    requires n < Power(8, w)
    ensures OctalValue(Octal(n, w)) == n
  {
    if w == 0 {
    } else {
      assert n / 8 < Power(8, w - 1);
      OctalRoundTrip(n / 8, w - 1);
      assert Octal(n, w)[..w - 1] == Octal(n / 8, w - 1);
    }
  }

  /** The value of any characters, taken from '0' on, in base 8. */
  lemma {:induction false} OctalMeans(s: seq<s8>)
    ensures OctalValue(s) == Positional(FromZero(s), 8)
    decreases |s|
  {
    if s == [] {
    } else {
      var front, v := s[..|s| - 1], s[|s| - 1] as int - 48;
      OctalMeans(front);
      assert FromZero(s) == FromZero(front) + [v];
      OneMoreDigit(FromZero(front), v, 8);
    }
  }

  /** Of the sizes a field of `w` digits can hold, the 32-bit parser reads exactly those below 4 GB correctly. */
  lemma SizeRoundTripExactly(n: nat, w: nat)
    requires n < Power(8, w)
    ensures Wrap(OctalValue(Octal(n, w))) == n <==> n < WORD
  {
    OctalRoundTrip(n, w);
  }

  lemma WrapSum(x: int, y: int)
    ensures Wrap(Wrap(x) + y) == Wrap(x + y)
  {
  }

  lemma Distribute(a: int, d: int, g: int)
    ensures (a * 8 + d) * g == a * (g * 8) + d * g
  {
  }

  method GetSize(field: seq<s8>) returns (size: u32)
    requires |field| >= SIZE_DIGITS
    ensures size == Wrap(OctalValue(field[..SIZE_DIGITS]))
  {
    size := 0;
    var count: u32 := 1;
    var j := 11;
    ghost var weight: nat, sum: int := 1, 0;
    assert field[..11][..11] == field[..11];
    while j > 0
      invariant 0 <= j <= 11 && Folded(field[..11], j, weight, sum) && size == Wrap(sum)
      invariant j > 0 ==> count == weight
    {
      FoldOne(field[..11], j, weight, sum);
      assert field[..11][j - 1] == field[j - 1];
      var digit: int := field[j - 1] as int - 48;
      WrapSum(sum, digit * count);
      size := Wrap(size + digit * count);
      count := Wrap(count * 8);
      sum := sum + digit * weight;
      weight := weight * 8;
      j := j - 1;
    }
    assert field[..11] == field[..SIZE_DIGITS];
  }

  /** The digits from position `j` on are folded into `sum`; `weight` is that of the digit before. */
  ghost predicate Folded(field: seq<s8>, j: nat, weight: nat, sum: int)
    requires |field| == 11
  {
    j <= 11 && weight == Power(8, 11 - j) && OctalValue(field) == OctalValue(field[..j]) * weight + sum
  }

  lemma FoldOne(field: seq<s8>, j: nat, weight: nat, sum: int)
    requires |field| == 11 && 1 <= j && Folded(field, j, weight, sum)
    ensures Folded(field, j - 1, weight * 8, sum + (field[j - 1] as int - 48) * weight)
    ensures weight < WORD && (j > 1 ==> weight * 8 < WORD)
  {
    assert field[..j][..j - 1] == field[..j - 1];
    Distribute(OctalValue(field[..j - 1]), field[j - 1] as int - 48, weight);
    SmallPower(11 - j);
    SmallPower(12 - j);
  }

  lemma SmallPower(k: nat)
    requires k <= 11
    ensures k <= 10 ==> Power(8, k) < WORD
    ensures k >= 1 ==> Power(8, k) == Power(8, k - 1) * 8
  {
    assert Power(8, 4) == 0x1000;
    assert Power(8, 8) == 8 * (8 * (8 * (8 * Power(8, 4))));
    assert Power(8, 10) == 8 * (8 * Power(8, 8));
  }

  // ---------------------------------------------------------------- walking the archive

  /** The widths of the header's fields: name, mode, uid, gid, size, mtime, chksum, typeflag, linkname, magic,
      version, uname, gname, devmajor, devminor, prefix. */
  const WIDTHS: seq<nat> := [100, 8, 8, 8, 12, 12, 8, 1, 100, 6, 2, 32, 32, 8, 8, 155]
  const NAME := 0
  const SIZE := 4

  function Offset(k: nat): nat
    requires k <= |WIDTHS|
  {
    if k == 0 then 0 else Offset(k - 1) + WIDTHS[k - 1]
  }

  function Field(head: seq<s8>, k: nat): seq<s8>
    requires k < |WIDTHS| && Offset(k) + WIDTHS[k] <= |head|
  {
    head[Offset(k)..Offset(k) + WIDTHS[k]]
  }

  /** The code looks for the size where the field of that name is, and for the end at the first character of a
      name. */
  lemma FieldsInPlace(head: seq<s8>)
    requires |head| == BLOCK
    ensures Offset(|WIDTHS|) == 500 && Offset(SIZE) == SIZE_AT
    ensures Field(head, SIZE)[..SIZE_DIGITS] == head[SIZE_AT..SIZE_AT + SIZE_DIGITS] && Field(head, NAME)[0] == head[0]
  {
    assert Offset(0) == 0 && Offset(1) == 100 && Offset(2) == 108 && Offset(3) == 116 && Offset(4) == 124;
    assert Offset(8) == 157 && Offset(12) == 297 && Offset(16) == 500;
  }

  /** The name is not empty. */
  predicate Named(head: seq<s8>)
    requires |head| == BLOCK
  {
    FieldsInPlace(head);
    Field(head, NAME)[0] != 0
  }

  /** The eleven digits of the size field, without what ends it. */
  function SizeText(head: seq<s8>): seq<s8>
    requires |head| == BLOCK
  {
    FieldsInPlace(head);
    Field(head, SIZE)[..SIZE_DIGITS]
  }

  /** One member: a header block, the data, and what fills its last block. */
  datatype Member = Member(head: seq<s8>, data: seq<s8>, pad: seq<s8>) {
    predicate Valid() {
      && |head| == BLOCK && Named(head)
      && |data| < Power(8, SIZE_DIGITS) && SizeText(head) == Octal(|data|, SIZE_DIGITS)
      && |pad| < BLOCK && (|data| + |pad|) % BLOCK == 0
    }

    function Bytes(): seq<s8> { head + data + pad }
  }

  function Encode(ms: seq<Member>): seq<s8> {
    if ms == [] then [] else ms[0].Bytes() + Encode(ms[1..])
  }

  /** The members `ms`, then a block that begins with NUL, stand at address `at`. */
  ghost predicate StandsAt(mem: seq<s8>, at: nat, ms: seq<Member>) {
    && at + |Encode(ms)| < |mem|
    && mem[at..at + |Encode(ms)|] == Encode(ms) && mem[at + |Encode(ms)|] == 0
    && forall i :: 0 <= i < |ms| ==> ms[i].Valid()
  }

  /** How far the code steps from one header to the next. */
  function Stride(size: nat): nat {
    (size / 512 + 1) * 512 + (if size % 512 != 0 then 512 else 0)
  }

  /** The step is the length of the member: its header and its padded data. */
  lemma StrideIsLength(m: Member)
    requires m.Valid()
    ensures |m.Bytes()| == Stride(|m.data|)
  {
    var n, p := |m.data|, |m.pad|;
    var q, k := n / BLOCK, (n + p) / BLOCK;
    assert n == q * BLOCK + n % BLOCK && n + p == k * BLOCK;
    assert n % BLOCK + p == (k - q) * BLOCK;
    assert k - q == if n % BLOCK != 0 then 1 else 0;
  }

  lemma Slice(mem: seq<s8>, at: nat, s: seq<s8>, i: nat, j: nat)
    requires at + |s| <= |mem| && mem[at..at + |s|] == s && i <= j <= |s|
    ensures mem[at + i..at + j] == s[i..j]
    ensures i < |s| ==> mem[at + i] == s[i]
  {
    forall k | 0 <= k < |s|
      ensures mem[at + k] == s[k]
    {
      assert mem[at + k] == mem[at..at + |s|][k];
    }
  }

  lemma ReadHeader(mem: seq<s8>, at: nat, ms: seq<Member>)
    requires StandsAt(mem, at, ms) && ms != [] && |mem| <= WORD
    ensures at + BLOCK <= |mem| && mem[at] != 0
    ensures mem[at + SIZE_AT..at + SIZE_AT + SIZE_DIGITS] == ms[0].head[SIZE_AT..SIZE_AT + SIZE_DIGITS]
    ensures ms[0].Valid() && |ms[0].data| < WORD
  {
    var m, s := ms[0], Encode(ms);
    assert m.Valid() && s[..BLOCK] == m.head;
    FieldsInPlace(m.head);
    Slice(mem, at, s, 0, BLOCK);
    Slice(mem, at, s, SIZE_AT, SIZE_AT + SIZE_DIGITS);
    assert s[SIZE_AT..SIZE_AT + SIZE_DIGITS] == s[..BLOCK][SIZE_AT..SIZE_AT + SIZE_DIGITS];
    assert |s| >= |m.data|;
  }

  lemma SizeField(m: Member)
    requires m.Valid()
    ensures OctalValue(m.head[SIZE_AT..SIZE_AT + SIZE_DIGITS]) == |m.data|
  {
    FieldsInPlace(m.head);
    OctalRoundTrip(|m.data|, SIZE_DIGITS);
  }

  lemma NextMember(mem: seq<s8>, at: nat, ms: seq<Member>)
    requires StandsAt(mem, at, ms) && ms != []
    ensures StandsAt(mem, at + Stride(|ms[0].data|), ms[1..])
  {
    var n, s, rest := |ms[0].Bytes()|, Encode(ms), Encode(ms[1..]);
    assert ms[0].Valid();
    assert n == Stride(|ms[0].data|) by { StrideIsLength(ms[0]); }
    assert s[n..] == rest && |s| == n + |rest|;
    Slice(mem, at, s, n, |s|);
    TailIsValid(ms);
  }

  lemma TailIsValid(ms: seq<Member>)
    requires ms != [] && forall i :: 0 <= i < |ms| ==> ms[i].Valid()
    ensures forall i :: 0 <= i < |ms[1..]| ==> ms[1..][i].Valid()
  {
  }

  /** A NUL where the next header would begin means that no member is left. */
  lemma EndIsNul(mem: seq<s8>, at: nat, ms: seq<Member>)
    requires StandsAt(mem, at, ms) && |mem| <= WORD
    ensures at < |mem| && (mem[at] == 0 <==> ms == [])
  {
  }

  lemma HeaderField(mem: seq<s8>, at: nat, ms: seq<Member>)
    requires StandsAt(mem, at, ms) && ms != [] && |mem| <= WORD
    ensures at + BLOCK <= |mem|
    ensures var field := mem[at + SIZE_AT..at + SIZE_AT + SIZE_DIGITS];
            field[..SIZE_DIGITS] == field && Wrap(OctalValue(field)) == |ms[0].data|
  {
    ReadHeader(mem, at, ms);
    SizeField(ms[0]);
  }

  method HeaderSize(mem: seq<s8>, addr: u32, ghost left: seq<Member>) returns (size: u32)
    requires |mem| <= WORD && StandsAt(mem, addr, left) && left != []
    ensures size == |left[0].data|
  {
    HeaderField(mem, addr, left);
    size := GetSize(mem[addr + SIZE_AT..addr + SIZE_AT + SIZE_DIGITS]);
  }

  method NextHeader(mem: seq<s8>, headerAddr: u32, size: u32, ghost left: seq<Member>) returns (addr: u32)
    requires |mem| <= WORD && StandsAt(mem, headerAddr, left) && left != [] && size == |left[0].data|
    ensures headerAddr + 512 <= addr && StandsAt(mem, addr, left[1..])
    ensures addr < |mem| && (mem[addr] == 0 <==> left[1..] == [])
  {
    ghost var next := headerAddr + Stride(size);
    NextMember(mem, headerAddr, left);
    EndIsNul(mem, next, left[1..]);
    addr := headerAddr + (size / 512 + 1) * 512;
    if size % 512 != 0 {
      addr := addr + 512;
    }
    assert addr == next;
  }

  /** count_headers returns the number of members of every well-formed non-empty archive. */
  method CountHeaders(mem: seq<s8>, headerAddr: u32, ghost ms: seq<Member>) returns (count: u32)
    requires |mem| <= WORD && StandsAt(mem, headerAddr, ms) && ms != []
    ensures count == |ms|
  {
    var addr: u32 := headerAddr;
    count := 0;
    ghost var left := ms;
    while true
      invariant left != [] && StandsAt(mem, addr, left) && count + |left| == |ms| && count * 512 <= addr
      decreases |left|
    {
      count := count + 1;
      var size := HeaderSize(mem, addr, left);
      addr := NextHeader(mem, addr, size, left);
      left := left[1..];
      if mem[addr] == 0 {
        return;
      }
    }
  }
}
