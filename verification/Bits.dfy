/** Single bits of the unsigned 32-bit words that make up the frame bitmap. */
module Bits {
  import opened Layout

  function Pow2(k: nat): nat {
    if k == 0 then 1 else 2 * Pow2(k - 1)
  }

  /** `w & (1 << k) != 0`. */
  predicate Bit(w: nat, k: nat) {
    if k == 0 then w % 2 == 1 else Bit(w / 2, k - 1)
  }

  /** `w | (1 << k)`, rebuilt bit by bit. */
  function SetBit(w: nat, k: nat): nat {
    if k == 0 then (if w % 2 == 1 then w else w + 1) else 2 * SetBit(w / 2, k - 1) + w % 2
  }

  /** `w & !(1 << k)`, rebuilt bit by bit. */
  function ClearBit(w: nat, k: nat): nat {
    if k == 0 then (if w % 2 == 1 then w - 1 else w) else 2 * ClearBit(w / 2, k - 1) + w % 2
  }

  lemma Halves(w: nat, rest: nat)
    ensures w < 2 * rest <==> w / 2 < rest
    ensures w == 2 * (w / 2) + w % 2
  {
  }

  lemma {:induction false} BitStaysBelow(w: nat, k: nat, n: nat)
    requires w < Pow2(n) && k < n
    ensures SetBit(w, k) < Pow2(n)
    ensures ClearBit(w, k) < Pow2(n)
  {
    Halves(w, Pow2(n - 1));
    if k != 0 {
      BitStaysBelow(w / 2, k - 1, n - 1);
    }
  }

  /** Both results are 32-bit words again. */
  lemma BitOfWord(w: Word, k: nat)
    requires k < 32
    ensures SetBit(w, k) < 0x1_0000_0000
    ensures ClearBit(w, k) < 0x1_0000_0000
  {
    assert Pow2(8) == 0x100;
    assert Pow2(16) == 0x1_0000;
    assert Pow2(24) == 0x100_0000;
    assert Pow2(32) == 0x1_0000_0000;
    BitStaysBelow(w, k, 32);
  }

  /** `|=` sets bit `k` and no other bit. */
  lemma {:induction false} BitAfterSet(w: nat, k: nat, j: nat)
    ensures Bit(SetBit(w, k), j) == (j == k || Bit(w, j))
  {
    if k != 0 && j != 0 {
      BitAfterSet(w / 2, k - 1, j - 1);
    }
  }

  /** `&=` with the complement clears bit `k` and no other bit. */
  lemma {:induction false} BitAfterClear(w: nat, k: nat, j: nat)
    ensures Bit(ClearBit(w, k), j) == (j != k && Bit(w, j))
  {
    if k != 0 && j != 0 {
      BitAfterClear(w / 2, k - 1, j - 1);
    }
  }

  lemma {:induction false} ZeroHasNoBit(k: nat)
    ensures !Bit(0, k)
  {
    if k != 0 {
      ZeroHasNoBit(k - 1);
    }
  }

  /** The position of the lowest set bit. */
  function TrailingZeros(w: nat): (k: nat)
    requires w != 0
    ensures Bit(w, k) && forall j :: 0 <= j < k ==> !Bit(w, j)
  {
    if w % 2 == 1 then 0 else
      var k := TrailingZeros(w / 2);
      assert forall j :: 0 < j < k + 1 ==> Bit(w, j) == Bit(w / 2, j - 1);
      k + 1
  }

  lemma {:induction false} TrailingZerosBelow(w: nat, n: nat)
    requires 0 < w < Pow2(n)
    ensures TrailingZeros(w) < n
  {
    if w % 2 == 0 {
      TrailingZerosBelow(w / 2, n - 1);
    }
  }

  lemma TrailingZerosOfWord(w: Word)
    requires w != 0
    ensures TrailingZeros(w) < 32
  {
    assert Pow2(8) == 0x100;
    assert Pow2(16) == 0x1_0000;
    assert Pow2(24) == 0x100_0000;
    TrailingZerosBelow(w, 32);
  }
}
