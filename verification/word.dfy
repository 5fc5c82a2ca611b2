/** The 32-bit unsigned machine word, as a range of integers. Storing a sum or a difference in a `u32`
    obliges the prover to show that it did not wrap; where the code may wrap, `Wrap` says so. */
module Word {

  const WORD := 0x1_0000_0000

  const PAGE := 0x1000                // bytes of a page and of the frame behind it
  const FRAMES := 0x10_0000           // how many frames have a 32-bit address
  const SPAN := 0x40_0000             // what one entry of a page directory covers
  const KERNEL_BASE := 0xC000_0000    // where the first 4 MB of memory are mapped
  const WINDOW := 0xFFC0_0000         // where a directory's tables appear; the allocator manages nothing above

  type u32 = x: int | 0 <= x < WORD

  /** A C `char`, which is signed. */
  type s8 = x: int | -128 <= x < 128

  /** The arithmetic the model uses for the masks and shifts the code applies to addresses and table words. */
  lemma BitOperations(x: bv32, a: bv32)
    ensures x & 0xFFFF_F000 == x - x % 0x1000 && x & 0xFFF == x % 0x1000 && x & 1 == x % 2
    ensures x >> 22 == x / 0x40_0000 && (x >> 12) & 0x3FF == x / 0x1000 % 0x400
    ensures x % 0x1000 == 0 && a < 0x1000 ==> x | a == x + a
  {
  }

  function Wrap(x: int): u32 { x % WORD }

  function Max(x: int, y: int): int { if x < y then y else x }

  function Min(x: int, y: int): int { if x < y then x else y }

  // ---------------------------------------------------------------- rounding up to a multiple

  /** The first of m, m + align, m + 2 * align, and so on, that reaches `x`. */
  function UpFrom(m: nat, x: nat, align: nat): (r: nat)
    requires align >= 1
    ensures x <= r && m <= r && (r == m || r < x + align)
    decreases x - m
  {
    if x <= m then m else UpFrom(m + align, x, align)
  }

  function AlignUp(x: nat, align: nat): (r: nat)
    requires align >= 1
    ensures x <= r < x + align
  {
    UpFrom(0, x, align)
  }

  lemma Quotient(x: nat, q: nat, r: nat, d: nat)
    requires d >= 1 && x == q * d + r && r < d
    ensures x % d == r
  {
    var q', r' := x / d, x % d;
    assert x == q' * d + r';
    var k := q - q';
    assert k * d == q * d - q' * d;
    assert k * d == r' - r;
    if k >= 1 {
      assert k * d >= d by { MulAtLeast(k, d); }
    } else if k <= -1 {
      assert (-k) * d == -(k * d);
      MulAtLeast(-k, d);
    }
  }

  lemma MulAtLeast(k: nat, d: nat)
    requires k >= 1
    ensures k * d >= d
  {
  }

  lemma MultipleAhead(m: nat, align: nat)
    requires align >= 1 && m % align == 0
    ensures (m + align) % align == 0
  {
    assert (m / align + 1) * align == m / align * align + align;
    Quotient(m + align, m / align + 1, 0, align);
  }

  lemma {:induction false} UpFromIsMultiple(m: nat, x: nat, align: nat)
    requires align >= 1 && m % align == 0
    ensures UpFrom(m, x, align) % align == 0
    decreases x - m
  {
    if x <= m {
    } else {
      MultipleAhead(m, align);
      UpFromIsMultiple(m + align, x, align);
    }
  }

  lemma BetweenMultiples(r: nat, y: nat, align: nat)
    requires align >= 1 && r % align == 0 && r - align < y < r
    ensures y % align != 0
  {
    var q := r / align;
    assert (q - 1) * align == q * align - align;
    assert q >= 1;
    Quotient(y, q - 1, y - (r - align), align);
  }

  /** The least multiple of `align` that is no less than `x`. */
  lemma AlignUpIsLeast(x: nat, align: nat)
    requires align >= 1
    ensures AlignUp(x, align) % align == 0
    ensures forall y :: x <= y < AlignUp(x, align) ==> y % align != 0
    ensures AlignUp(x, align) == x <==> x % align == 0
  {
    UpFromIsMultiple(0, x, align);
    forall y | x <= y < AlignUp(x, align)
      ensures y % align != 0
    {
      BetweenMultiples(AlignUp(x, align), y, align);
    }
  }

  lemma {:induction false} UpFromStep(m: nat, x: nat, align: nat)
    requires align >= 1 && UpFrom(m, x, align) != x
    ensures UpFrom(m, x + 1, align) == UpFrom(m, x, align)
    decreases x - m
  {
    if x <= m {
    } else {
      UpFromStep(m + align, x, align);
    }
  }

  /** Stepping past an address that is not a multiple does not change the multiple above it. */
  lemma AlignUpStep(x: nat, align: nat)
    requires align >= 1 && x % align != 0
    ensures AlignUp(x + 1, align) == AlignUp(x, align) > x
  {
    AlignUpIsLeast(x, align);
    UpFromStep(0, x, align);
  }
}
