/** The bitmap: one bit per item, eight to a byte, least significant bit first. */
module Bitmaps {

  /** 0x1 << j */
  function Mask(j: nat): bv8
    requires j < 8
  {
    (1 as bv8) << j
  }

  function Bit(b: bv8, j: nat): bool
    requires j < 8
  {
    b & Mask(j) != 0
  }

  predicate IsSet(s: seq<bv8>, k: nat)
    requires k < 8 * |s|
  {
    Bit(s[k / 8], k % 8)
  }

  /** The items whose bit is clear. */
  ghost function ClearBits(s: seq<bv8>): set<nat> {
    set k: nat | k < 8 * |s| && !IsSet(s, k)
  }

  lemma MaskIs(j: nat)
    requires j < 8
    ensures Mask(j) == [1, 2, 4, 8, 16, 32, 64, 128][j]
  {
  }

  lemma BitAfterOr(b: bv8, j: nat, k: nat)
    requires j < 8 && k < 8
    ensures Bit(b | Mask(j), k) <==> k == j || Bit(b, k)
  {
  }

  lemma BitAfterAndNot(b: bv8, j: nat, k: nat)
    requires j < 8 && k < 8
    ensures Bit(b & !Mask(j), k) <==> k != j && Bit(b, k)
  {
  }

  lemma FullByte(b: bv8)
    ensures b == 0xFF <==> forall j :: 0 <= j < 8 ==> Bit(b, j)
    ensures b == 0 <==> forall j :: 0 <= j < 8 ==> !Bit(b, j)
  {
    MaskIs(0); MaskIs(1); MaskIs(2); MaskIs(3); MaskIs(4); MaskIs(5); MaskIs(6); MaskIs(7);
    assert (forall j :: 0 <= j < 8 ==> Bit(b, j)) ==>
        Bit(b, 0) && Bit(b, 1) && Bit(b, 2) && Bit(b, 3) && Bit(b, 4) && Bit(b, 5) && Bit(b, 6) && Bit(b, 7);
    assert (forall j :: 0 <= j < 8 ==> !Bit(b, j)) ==>
        !(Bit(b, 0) || Bit(b, 1) || Bit(b, 2) || Bit(b, 3) || Bit(b, 4) || Bit(b, 5) || Bit(b, 6) || Bit(b, 7));
  }

  lemma SetMeans(s: seq<bv8>, bit: nat)
    requires bit < 8 * |s|
    ensures ClearBits(s[bit / 8 := s[bit / 8] | Mask(bit % 8)]) == ClearBits(s) - {bit}
  {
    var t := s[bit / 8 := s[bit / 8] | Mask(bit % 8)];
    forall k: nat | k < 8 * |s|
      ensures IsSet(t, k) <==> k == bit || IsSet(s, k)
    {
      BitAfterOr(s[bit / 8], bit % 8, k % 8);
    }
  }

  lemma ClearMeans(s: seq<bv8>, bit: nat)
    requires bit < 8 * |s|
    ensures ClearBits(s[bit / 8 := s[bit / 8] & !Mask(bit % 8)]) == ClearBits(s) + {bit}
  {
    var t := s[bit / 8 := s[bit / 8] & !Mask(bit % 8)];
    forall k: nat | k < 8 * |s|
      ensures IsSet(t, k) <==> k != bit && IsSet(s, k)
    {
      BitAfterAndNot(s[bit / 8], bit % 8, k % 8);
    }
  }

  /** What one byte says about the eight items it holds. */
  lemma ByteMeans(s: seq<bv8>, i: nat)
    requires i < |s|
    ensures s[i] == 0xFF <==> forall k: nat :: 8 * i <= k < 8 * i + 8 ==> IsSet(s, k)
    ensures s[i] == 0 <==> forall k: nat :: 8 * i <= k < 8 * i + 8 ==> !IsSet(s, k)
  {
    FullByte(s[i]);
    forall j | 0 <= j < 8
      ensures IsSet(s, 8 * i + j) == Bit(s[i], j)
    {
    }
    forall k: nat | 8 * i <= k < 8 * i + 8
      ensures IsSet(s, k) == Bit(s[i], k - 8 * i)
    {
    }
  }

  lemma BitMeans(s: seq<bv8>, i: nat, j: nat)
    requires i < |s| && j < 8
    ensures IsSet(s, 8 * i + j) <==> s[i] & ((1 as bv8) << j) != 0
  {
    assert (8 * i + j) / 8 == i && (8 * i + j) % 8 == j;
  }

  class Bitmap {
    const addr: array<bv8>

    constructor (bytes: nat)
      ensures addr.Length == bytes && fresh(addr)
    {
      addr := new bv8[bytes];
    }

    /** The items whose bit is clear. */
    ghost function Clear(): set<nat>
      reads addr
    {
      ClearBits(addr[..])
    }

    method TestBit(bit: nat) returns (r: bool)
      requires bit < 8 * addr.Length
      ensures r <==> bit !in Clear()
    {
      r := addr[bit / 8] & ((1 as bv8) << (bit % 8)) != 0;
    }

    method SetBit(bit: nat)
      requires bit < 8 * addr.Length
      modifies addr
      ensures Clear() == old(Clear()) - {bit}
    {
      ghost var s := addr[..];
      addr[bit / 8] := addr[bit / 8] | Mask(bit % 8);
      assert addr[..] == s[bit / 8 := s[bit / 8] | Mask(bit % 8)];
      SetMeans(s, bit);
    }

    method ClearBit(bit: nat)
      requires bit < 8 * addr.Length
      modifies addr
      ensures Clear() == old(Clear()) + {bit}
    {
      ghost var s := addr[..];
      addr[bit / 8] := addr[bit / 8] & !Mask(bit % 8);
      assert addr[..] == s[bit / 8 := s[bit / 8] & !Mask(bit % 8)];
      ClearMeans(s, bit);
    }

    method SetAllBits()
      modifies addr
      ensures Clear() == {}
    {
      for i := 0 to addr.Length
        invariant forall k :: 0 <= k < i ==> addr[k] == 0xFF
      {
        addr[i] := 0xFF;
      }
      forall k: nat | k < 8 * addr.Length
        ensures IsSet(addr[..], k)
      {
        ByteMeans(addr[..], k / 8);
      }
    }

    method AnyBitClear() returns (r: bool)
      ensures r <==> Clear() != {}
    {
      for i := 0 to addr.Length
        invariant forall k: nat :: k < 8 * i ==> IsSet(addr[..], k)
      {
        ByteMeans(addr[..], i);
        if addr[i] != 0xFF {
          ghost var k: nat :| 8 * i <= k < 8 * i + 8 && !IsSet(addr[..], k);
          assert k in Clear();
          return true;
        }
      }
      return false;
    }

    method AnyBitSet() returns (r: bool)
      ensures r <==> exists k: nat :: k < 8 * addr.Length && k !in Clear()
    {
      for i := 0 to addr.Length
        invariant forall k: nat :: k < 8 * i ==> !IsSet(addr[..], k)
      {
        ByteMeans(addr[..], i);
        if addr[i] != 0 {
          ghost var k: nat :| 8 * i <= k < 8 * i + 8 && IsSet(addr[..], k);
          assert k !in Clear();
          return true;
        }
      }
      return false;
    }

    /** The least clear bit; 0 if there is none. */
    method FindFirstClearBit() returns (r: nat)
      ensures Clear() != {} ==> r in Clear() && forall k :: k in Clear() ==> r <= k
      ensures Clear() == {} ==> r == 0
    {
      for i := 0 to addr.Length
        invariant forall k: nat :: k < 8 * i ==> IsSet(addr[..], k)
      {
        ByteMeans(addr[..], i);
        if addr[i] != 0xFF {
          for j := 0 to 8
            invariant forall k: nat :: k < 8 * i + j ==> IsSet(addr[..], k)
          {
            BitMeans(addr[..], i, j);
            if addr[i] & ((1 as bv8) << j) == 0 {
              assert 8 * i + j in Clear();
              return i * 8 + j;
            }
          }
        }
      }
      return 0;
    }

    /** The least set bit; 0 if there is none. */
    method FindFirstSetBit() returns (r: nat)
      ensures (exists k: nat :: k < 8 * addr.Length && IsSet(addr[..], k)) ==>
                r < 8 * addr.Length && IsSet(addr[..], r) && forall k: nat :: k < r ==> !IsSet(addr[..], k)
      ensures (forall k: nat :: k < 8 * addr.Length ==> !IsSet(addr[..], k)) ==> r == 0
    {
      for i := 0 to addr.Length
        invariant forall k: nat :: k < 8 * i ==> !IsSet(addr[..], k)
      {
        ByteMeans(addr[..], i);
        if addr[i] != 0 {
          for j := 0 to 8
            invariant forall k: nat :: k < 8 * i + j ==> !IsSet(addr[..], k)
          {
            BitMeans(addr[..], i, j);
            if addr[i] & ((1 as bv8) << j) != 0 {
              return i * 8 + j;
            }
          }
        }
      }
      return 0;
    }
  }
}
