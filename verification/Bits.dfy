/** Single bits of the words that the kernel's allocation bitmaps are made of. */
module Bits {

  function Pow2(n: nat): (p: nat)
    ensures p > 0
  {
    if n == 0 then 1 else 2 * Pow2(n - 1)
  }

  /** `w & (1 << j)` is not zero. */
  predicate Bit(w: nat, j: nat)
  {
    if j == 0 then w % 2 == 1 else Bit(w / 2, j - 1)
  }

  /** `w | (1 << j)` */
  function SetBit(w: nat, j: nat): nat
  {
    if j == 0 then w / 2 * 2 + 1 else SetBit(w / 2, j - 1) * 2 + w % 2
  }

  /** `w & ~(1 << j)` */
  function ClearBit(w: nat, j: nat): nat
  {
    if j == 0 then w / 2 * 2 else ClearBit(w / 2, j - 1) * 2 + w % 2
  }

  /** Setting and clearing a bit changes that bit and no other. */
  lemma {:induction false} UpdateBit(w: nat, j: nat, k: nat)
    ensures Bit(SetBit(w, j), k) <==> k == j || Bit(w, k)
    ensures Bit(ClearBit(w, j), k) <==> k != j && Bit(w, k)
  {
    if j > 0 && k > 0 {
      UpdateBit(w / 2, j - 1, k - 1);
    }
  }

  /** `a | b` */
  function Or(a: nat, b: nat): nat
  {
    if a == 0 then b else if b == 0 then a else Or(a / 2, b / 2) * 2 + if a % 2 == 1 || b % 2 == 1 then 1 else 0
  }

  lemma {:induction false} OrBits(a: nat, b: nat, k: nat)
    ensures Bit(Or(a, b), k) <==> Bit(a, k) || Bit(b, k)
  {
    if a == 0 || b == 0 {
      NoBits(k);
    } else if k > 0 {
      OrBits(a / 2, b / 2, k - 1);
    }
  }

  lemma {:induction false} NoBits(k: nat)
    ensures !Bit(0, k)
  {
    if k > 0 {
      NoBits(k - 1);
    }
  }

  lemma {:induction false} OrWidth(a: nat, b: nat, n: nat)
    requires a < Pow2(n) && b < Pow2(n)
    ensures Or(a, b) < Pow2(n)
  {
    if a > 0 && b > 0 && n > 0 {
      OrWidth(a / 2, b / 2, n - 1);
    }
  }

  ghost predicate Covers(a: nat, b: nat) {
    forall k: nat | Bit(b, k) :: Bit(a, k)
  }

  /** Or-ing changes a word exactly if it brings in a new bit. */
  lemma OrKeeps(a: nat, b: nat)
    ensures Or(a, b) == a <==> Covers(a, b)
  {
    hide Bit;
    if Or(a, b) == a {
      forall k: nat | Bit(b, k) ensures Bit(a, k) {
        OrBits(a, b, k);
      }
    } else if Covers(a, b) {
      OrAbsorbs(a, b);
    }
  }

  lemma {:induction false} OrAbsorbs(a: nat, b: nat)
    requires Covers(a, b)
    ensures Or(a, b) == a
  {
    if b > 0 {
      forall k: nat | Bit(b / 2, k) ensures Bit(a / 2, k) {
        assert Bit(b, k + 1);
      }
      assert Bit(b, 0) ==> Bit(a, 0);
      OrAbsorbs(a / 2, b / 2);
    }
  }

  /** Half an n-bit word has n - 1 bits, and one bit more makes n again. */
  lemma Halves(w: nat, n: nat)
    requires 0 < n && w < Pow2(n)
    ensures w / 2 < Pow2(n - 1) && Pow2(n) == 2 * Pow2(n - 1)
  {
  }

  /** An n-bit word stays an n-bit word. */
  lemma {:induction false} UpdateWidth(w: nat, j: nat, n: nat)
    requires j < n && w < Pow2(n)
    ensures SetBit(w, j) < Pow2(n) && ClearBit(w, j) < Pow2(n)
  {
    hide Pow2;
    Halves(w, n);
    if j > 0 {
      UpdateWidth(w / 2, j - 1, n - 1);
    }
  }

  /** The word with every bit set is the only one that a search for a clear bit may skip. */
  lemma {:induction false} AllOnes(n: nat, j: nat)
    requires j < n
    ensures Bit(Pow2(n) - 1, j)
  {
    if j > 0 {
      assert (Pow2(n) - 1) / 2 == Pow2(n - 1) - 1;
      AllOnes(n - 1, j - 1);
    }
  }

  ghost function SomeClearBit(w: nat, n: nat): (j: nat)
    requires w < Pow2(n) - 1
    ensures j < n && !Bit(w, j)
  {
    if w % 2 == 0 then 0 else SomeClearBit(w / 2, n - 1) + 1
  }

  lemma Width8()
    ensures Pow2(8) == 0x100
  {
  }

  lemma Width32()
    ensures Pow2(32) == 0x1_0000_0000
  {
    assert Pow2(8) == 0x100;
    assert Pow2(16) == 0x1_0000;
    assert Pow2(24) == 0x100_0000;
  }
}
