/**
 Bitwise operators on unsigned machine words, defined bit by bit on natural numbers, and the laws
 that turn masks and shifts into bit fields.
 */
module Bits {

  function Pow2(k: nat): (p: nat)
    ensures p >= 1
  {
    if k == 0 then 1 else 2 * Pow2(k - 1)
  }

  function And(x: nat, y: nat): nat {
    if x == 0 || y == 0 then 0 else (if x % 2 == 1 && y % 2 == 1 then 1 else 0) + 2 * And(x / 2, y / 2)
  }

  function Or(x: nat, y: nat): nat
    decreases x + y
  {
    if x == 0 && y == 0 then 0 else (if x % 2 == 1 || y % 2 == 1 then 1 else 0) + 2 * Or(x / 2, y / 2)
  }

  function Xor(x: nat, y: nat): nat
    decreases x + y
  {
    if x == 0 && y == 0 then 0 else (if x % 2 != y % 2 then 1 else 0) + 2 * Xor(x / 2, y / 2)
  }

  /** `word >> shift`. */
  function Shr(word: nat, shift: nat): nat {
    if shift == 0 then word else Shr(word / 2, shift - 1)
  }

  /** The lowest `width` bits of `word`. */
  function Low(word: nat, width: nat): (bits: nat)
    ensures bits < Pow2(width)
  {
    if width == 0 then 0 else word % 2 + 2 * Low(word / 2, width - 1)
  }

  /** `word << shift` in a register of `width` bits. */
  function Shl(word: nat, shift: nat, width: nat): (bits: nat)
    ensures bits < Pow2(width)
  {
    Low(word * Pow2(shift), width)
  }

  /** The field of `width` bits of `word` whose lowest bit is bit `low`. */
  function Field(word: nat, low: nat, width: nat): (bits: nat)
    ensures bits < Pow2(width)
  {
    Low(Shr(word, low), width)
  }

  lemma {:induction false} Pow2Add(j: nat, k: nat)
    ensures Pow2(j + k) == Pow2(j) * Pow2(k)
  {
    if j > 0 {
      Pow2Add(j - 1, k);
      MulAssoc(2, Pow2(j - 1), Pow2(k));
    }
  }

  lemma Pow2Four(k: nat)
    ensures Pow2(k + 4) == 0x10 * Pow2(k)
  {
    assert Pow2(k + 1) == 2 * Pow2(k);
    assert Pow2(k + 2) == 2 * Pow2(k + 1);
    assert Pow2(k + 3) == 2 * Pow2(k + 2);
    assert Pow2(k + 4) == 2 * Pow2(k + 3);
  }

  lemma Pow2Sixteen(k: nat)
    ensures Pow2(16 + k) == 0x1_0000 * Pow2(k)
  {
    Pow2Four(k);
    Pow2Four(k + 4);
    Pow2Four(k + 8);
    Pow2Four(k + 12);
  }

  lemma Pow2At64()
    ensures Pow2(32) == 0x1_0000_0000 && Pow2(63) == 0x8000_0000_0000_0000 && Pow2(64) == 0x1_0000_0000_0000_0000
  {
    assert Pow2(4) == 0x10 && Pow2(8) == 0x100 && Pow2(12) == 0x1000 && Pow2(15) == 0x8000 && Pow2(16) == 0x1_0000;
    Pow2Sixteen(16);
    Pow2Sixteen(15);
    Pow2Sixteen(31);
    Pow2Sixteen(47);
    Pow2Sixteen(32);
    Pow2Sixteen(48);
  }

  lemma {:induction false} Pow2Monotone(j: nat, k: nat)
    requires j <= k
    ensures Pow2(j) <= Pow2(k)
  {
    if j < k { Pow2Monotone(j, k - 1); }
  }

  lemma MulAssoc(a: int, b: int, c: int)
    ensures a * (b * c) == a * b * c
  {
  }

  lemma {:induction false} Recompose(word: nat, k: nat)
    ensures word == Pow2(k) * Shr(word, k) + Low(word, k)
  {
    if k > 0 {
      Recompose(word / 2, k - 1);
      MulAssoc(2, Pow2(k - 1), Shr(word, k));
    }
  }

  /** A decomposition at bit `k` is the only one. */
  lemma {:induction false} DecomposeUnique(word: nat, k: nat, high: nat, low: nat)
    requires low < Pow2(k) && word == Pow2(k) * high + low
    ensures Shr(word, k) == high && Low(word, k) == low
  {
    if k > 0 {
      MulAssoc(2, Pow2(k - 1), high);
      var half := Pow2(k - 1) * high;
      assert word == 2 * half + low;
      DecomposeUnique(word / 2, k - 1, high, low / 2);
    }
  }

  /** Shifts and low bits by a known power are quotients and remainders. */
  lemma ShrLow(word: nat, k: nat, p: nat)
    requires p == Pow2(k)
    ensures Shr(word, k) == word / p && Low(word, k) == word % p
  {
    assert word == p * (word / p) + word % p;
    QuotientNat(word, p);
    DecomposeUnique(word, k, word / p, word % p);
  }

  lemma QuotientNat(x: nat, p: nat)
    requires p > 0
    ensures x / p >= 0
  {
  }

  lemma {:induction false} LowSmall(word: nat, k: nat)
    requires word < Pow2(k)
    ensures Low(word, k) == word && Shr(word, k) == 0
  {
    DecomposeUnique(word, k, 0, word);
  }

  // ---- masks ----

  lemma AndUnfold(x: nat, y: nat)
    ensures And(x, y) == (if x % 2 == 1 && y % 2 == 1 then 1 else 0) + 2 * And(x / 2, y / 2)
  {
  }

  /** Masking with a run of ones from bit zero keeps the low bits. */
  lemma {:induction false} AndLowOnes(x: nat, k: nat)
    ensures And(x, Pow2(k) - 1) == Low(x, k)
  {
    if k > 0 {
      var p := Pow2(k - 1);
      assert (2 * p - 1) / 2 == p - 1 && (2 * p - 1) % 2 == 1;
      AndUnfold(x, 2 * p - 1);
      AndLowOnes(x / 2, k - 1);
    }
  }

  lemma MulSwap(a: nat, p: nat)
    ensures a * (2 * p) == 2 * (a * p)
  {
  }

  lemma {:induction false} AndEven(x: nat, half: nat)
    ensures And(x, 2 * half) == 2 * And(x / 2, half)
  {
    var even := 2 * half;
    assert even % 2 == 0 && even / 2 == half;
    AndUnfold(x, even);
  }

  lemma {:induction false} AndShifted(x: nat, m: nat, k: nat)
    ensures And(x, m * Pow2(k)) == And(Shr(x, k), m) * Pow2(k)
  {
    if k > 0 {
      var p := Pow2(k - 1);
      MulSwap(m, p);
      MulSwap(And(Shr(x, k), m), p);
      AndEven(x, m * p);
      AndShifted(x / 2, m, k - 1);
    }
  }

  /** Masking with a run of ones at bit `low` keeps a field in place. */
  lemma AndField(x: nat, low: nat, width: nat)
    ensures And(x, (Pow2(width) - 1) * Pow2(low)) == Field(x, low, width) * Pow2(low)
  {
    AndShifted(x, Pow2(width) - 1, low);
    AndLowOnes(Shr(x, low), width);
  }

  /** A mask of two disjoint parts masks by parts. */
  lemma {:induction false} AndParts(x: nat, high: nat, low: nat, k: nat)
    requires low < Pow2(k)
    ensures And(x, high * Pow2(k) + low) == And(x, high * Pow2(k)) + And(x, low)
  {
    if k == 0 {
      assert And(x, low) == 0;
    } else {
      var m, h := high * Pow2(k - 1), high * Pow2(k);
      MulSwap(high, Pow2(k - 1));
      AndUnfold(x, h + low);
      AndUnfold(x, h);
      AndUnfold(x, low);
      assert (h + low) / 2 == m + low / 2 && (h + low) % 2 == low % 2 && h / 2 == m && h % 2 == 0;
      AndParts(x / 2, high, low / 2, k - 1);
    }
  }

  /** Or of a multiple of `2^k` and a smaller number is their sum. */
  lemma {:induction false} OrDisjoint(high: nat, low: nat, k: nat)
    requires low < Pow2(k)
    ensures Or(high * Pow2(k), low) == high * Pow2(k) + low
  {
    if k == 0 {
      OrZero(high);
    } else {
      var m := high * Pow2(k - 1);
      MulSwap(high, Pow2(k - 1));
      OrUnfold(2 * m, low);
      OrDisjoint(high, low / 2, k - 1);
    }
  }

  /** Or stays within the register. */
  lemma {:induction false} OrBelow(x: nat, y: nat, k: nat)
    requires x < Pow2(k) && y < Pow2(k)
    ensures Or(x, y) < Pow2(k)
  {
    if k > 0 {
      OrUnfold(x, y);
      OrBelow(x / 2, y / 2, k - 1);
    }
  }

  lemma {:induction false} OrZero(x: nat)
    ensures Or(x, 0) == x
  {
    if x > 0 { OrZero(x / 2); }
  }

  lemma OrUnfold(x: nat, y: nat)
    ensures Or(x, y) == (if x % 2 == 1 || y % 2 == 1 then 1 else 0) + 2 * Or(x / 2, y / 2)
  {
  }

  lemma XorEven(x: nat, half: nat)
    ensures Xor(x, 2 * half) == x % 2 + 2 * Xor(x / 2, half)
  {
    var y := 2 * half;
    assert y % 2 == 0 && y / 2 == half;
  }

  /** Xor with bit `k` flips it. */
  lemma {:induction false} XorBit(x: nat, k: nat)
    requires x < 2 * Pow2(k)
    ensures Xor(x, Pow2(k)) == if x >= Pow2(k) then x - Pow2(k) else x + Pow2(k)
  {
    if k == 0 {
      assert Xor(0, 0) == 0;
    } else {
      XorEven(x, Pow2(k - 1));
      XorBit(x / 2, k - 1);
    }
  }
}
