/** The four bytes of a 32-bit word, lowest first. */
module Bytes {
  import opened Layout

  /** Byte `k` of a word. */
  function ByteOf(w: nat, k: nat): Byte {
    if k == 0 then w % 256 else ByteOf(w / 256, k - 1)
  }

  lemma ByteParts(w: nat, k: nat)
    ensures ByteOf(w, k + 1) == ByteOf(w / 256, k)
    ensures w == 256 * (w / 256) + ByteOf(w, 0)
  {
  }

  /** The four bytes make up the word, the lowest first. */
  lemma WordOfBytes(w: Word)
    ensures w == ByteOf(w, 0) + 256 * ByteOf(w, 1) + 0x1_0000 * ByteOf(w, 2) + 0x100_0000 * ByteOf(w, 3)
  {
    hide ByteOf;
    var x := w / 256;
    var y := x / 256;
    var z := y / 256;
    ByteParts(w, 0);
    ByteParts(w, 1);
    ByteParts(w, 2);
    ByteParts(x, 0);
    ByteParts(x, 1);
    ByteParts(y, 0);
    ByteParts(z, 0);
    assert z < 256 ==> z / 256 == 0;
  }

  /** The word with byte `k` replaced. */
  function PutByte(w: nat, k: nat, b: Byte): nat {
    if k == 0 then w - w % 256 + b else PutByte(w / 256, k - 1, b) * 256 + w % 256
  }

  /** A byte store changes that byte and no other byte of the word. */
  lemma {:induction false} ByteAfterPut(w: nat, k: nat, b: Byte, j: nat)
    ensures ByteOf(PutByte(w, k, b), j) == if j == k then b else ByteOf(w, j)
  {
    if k != 0 && j != 0 {
      ByteAfterPut(w / 256, k - 1, b, j - 1);
    }
  }

  function Pow256(n: nat): nat {
    if n == 0 then 1 else 256 * Pow256(n - 1)
  }

  lemma Digits(w: nat, rest: nat)
    ensures w < 256 * rest <==> w / 256 < rest
    ensures w == w / 256 * 256 + w % 256
  {
  }

  lemma {:induction false} PutStaysBelow(w: nat, k: nat, b: Byte, n: nat)
    requires w < Pow256(n) && k < n
    ensures PutByte(w, k, b) < Pow256(n)
  {
    var rest := Pow256(n - 1);
    Digits(w, rest);
    if k != 0 {
      PutStaysBelow(w / 256, k - 1, b, n - 1);
    }
  }

  /** The word of four bytes with one of them replaced. */
  function WithByte(w: Word, k: nat, b: Byte): Word
    requires k < 4
  {
    assert Pow256(4) == 0x1_0000_0000 by {
      assert Pow256(2) == 0x1_0000;
    }
    PutStaysBelow(w, k, b, 4);
    PutByte(w, k, b)
  }
}
