/**
 Bits of a 32-bit word.
 */
module WordBits {

  predicate Bit(w: bv32, k: nat)
    requires k < 32
  {
    (w >> k) & 1 == 1
  }

  predicate Below32(k: nat) {
    || k == 0 || k == 1 || k == 2 || k == 3 || k == 4 || k == 5 || k == 6 || k == 7
    || k == 8 || k == 9 || k == 10 || k == 11 || k == 12 || k == 13 || k == 14 || k == 15
    || k == 16 || k == 17 || k == 18 || k == 19 || k == 20 || k == 21 || k == 22 || k == 23
    || k == 24 || k == 25 || k == 26 || k == 27 || k == 28 || k == 29 || k == 30 || k == 31
  }

  lemma RoundTrip(k: nat)
    requires k < 32
    ensures (k as bv32) as nat == k && (k as bv32) < 32
  {
    assert Below32(k);
  }

  lemma OrShift(w: bv32, k: bv32, j: bv32)
    requires k < 32 && j < 32
    ensures ((w | (1 << k)) >> j) & 1 == 1 <==> j == k || (w >> j) & 1 == 1
  {
  }

  lemma SetBit(w: bv32, k: nat, j: nat)
    requires k < 32 && j < 32
    ensures Bit(w | (1 << k), j) <==> j == k || Bit(w, j)
  {
    var kk, jj := k as bv32, j as bv32;
    assert kk < 32 && jj < 32 && (kk == jj <==> k == j) by {
      RoundTrip(k);
      RoundTrip(j);
    }
    OrShift(w, kk, jj);
  }

  lemma ShiftStep(w: bv32, k: nat)
    requires k < 32
    ensures w >> k == 0 <==> w >> (k + 1) == 0 && !Bit(w, k)
  {
    assert Below32(k);
  }

  predicate Zero(w: bv32, k: nat)
    requires k <= 32
  {
    w >> k == 0
  }

  lemma ZeroAll(w: bv32)
    ensures Zero(w, 32)
  {
  }

  /** `w >> k` is zero when bit `k` and all bits above it are clear, not just bit `k`. */
  lemma {:induction false} ShiftZero(w: bv32, k: nat)
    requires k <= 32
    ensures Zero(w, k) <==> forall j | k <= j < 32 :: !Bit(w, j)
    decreases 32 - k
  {
    if k < 32 {
      ShiftStep(w, k);
      ShiftZero(w, k + 1);
      assert (forall j | k <= j < 32 :: !Bit(w, j)) <==> !Bit(w, k) && forall j | k + 1 <= j < 32 :: !Bit(w, j);
    } else {
      ZeroAll(w);
    }
  }
}
