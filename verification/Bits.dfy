/**
 Bits of a byte, as the bitmaps of the page allocator use them.
 */
module Bits {

  predicate Bit(b: bv8, k: nat)
    requires k < 8
  {
    (b >> k) & 1 == 1
  }

  lemma ShiftStep(b: bv8, k: nat)
    requires k < 8
    ensures b >> k == 0 <==> b >> (k + 1) == 0 && !Bit(b, k)
  {
    assert k == 0 || k == 1 || k == 2 || k == 3 || k == 4 || k == 5 || k == 6 || k == 7;
  }

  /** `b >> k` is zero when bit `k` and all bits above it are clear, not just bit `k`. */
  lemma {:induction false} ShiftZero(b: bv8, k: nat)
    requires k <= 8
    ensures b >> k == 0 <==> forall j | k <= j < 8 :: !Bit(b, j)
    decreases 8 - k
  {
    if k < 8 {
      ShiftStep(b, k);
      ShiftZero(b, k + 1);
    }
  }

  lemma SetBit(b: bv8, k: nat, j: nat)
    requires k < 8 && j < 8
    ensures Bit(b | (1 << k), j) <==> j == k || Bit(b, j)
  {
    assert k == 0 || k == 1 || k == 2 || k == 3 || k == 4 || k == 5 || k == 6 || k == 7;
    assert j == 0 || j == 1 || j == 2 || j == 3 || j == 4 || j == 5 || j == 6 || j == 7;
  }

  lemma AndBit(b: bv8, m: bv8, j: nat)
    requires j < 8
    ensures Bit(b & m, j) <==> Bit(b, j) && Bit(m, j)
  {
    if j < 2 {
      assert j == 0 || j == 1;
    } else if j < 4 {
      assert j == 2 || j == 3;
    } else if j < 6 {
      assert j == 4 || j == 5;
    } else {
      assert j == 6 || j == 7;
    }
  }

  lemma NotBit(m: bv8, j: nat)
    requires j < 8
    ensures Bit(!m, j) <==> !Bit(m, j)
  {
    assert j == 0 || j == 1 || j == 2 || j == 3 || j == 4 || j == 5 || j == 6 || j == 7;
  }

  lemma ClearBit(b: bv8, k: nat, j: nat)
    requires k < 8 && j < 8
    ensures Bit(b & !(1 << k), j) <==> j != k && Bit(b, j)
  {
    var one: bv8 := 1;
    AndBit(b, !(one << k), j);
    NotBit(one << k, j);
    SetBit(0, k, j);
    assert !Bit(0, j);
    assert 0 | (one << k) == one << k;
  }
}
