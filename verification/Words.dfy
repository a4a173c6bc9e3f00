/**
 64-bit machine words. A `u64` is a natural number below 2^64; its shifts are
 written arithmetically with the truncation made explicit, and `|` is defined
 bit by bit.
 */
module Words {
  import opened Arith

  const BASE: nat := 0x1_0000_0000_0000_0000

  type Word = x: nat | x < BASE

  // `w << s` on u64: the bits pushed past the top are lost.
  function ShiftLeft(w: Word, s: nat): Word
    requires s < 64
  {
    (w * Pow2(s)) % BASE
  }

  // `w >> s` on u64.
  function ShiftRight(w: Word, s: nat): (r: Word)
    requires s < 64
    ensures r * Pow2(s) <= w < (r + 1) * Pow2(s)
  {
    Pow2Positive(s);
    DivMod(w, Pow2(s));
    var q := w / Pow2(s);
    assert q <= w by {
      MulMonotone(q, 1, Pow2(s));
    }
    q
  }

  // Bitwise or.
  function Or(a: nat, b: nat): nat {
    if a == 0 && b == 0 then 0
    else (if a % 2 == 1 || b % 2 == 1 then 1 else 0) + 2 * Or(a / 2, b / 2)
  }

  // The number of bits up to and including the highest set bit, that is
  // 64 - leading_zeros() for a u64.
  function BitLength(w: nat): nat {
    if w == 0 then 0 else 1 + BitLength(w / 2)
  }

  lemma {:induction false} BaseIsPow2()
    ensures Pow2(64) == BASE
  {
    assert Pow2(8) == 0x100;
    Pow2Add(8, 8);
    Pow2Add(16, 16);
    Pow2Add(32, 32);
  }

  lemma {:induction false} OrZero(a: nat)
    ensures Or(a, 0) == a
  {
    if a > 0 {
      OrZero(a / 2);
    }
  }

  // Or of numbers whose set bits lie apart is their sum.
  lemma {:induction false} OrDisjoint(a: nat, b: nat, k: nat)
    requires Pow2(k) > 0 && a % Pow2(k) == 0 && b < Pow2(k)
    ensures Or(a, b) == a + b
  {
    if k == 0 {
      OrZero(a);
    } else if a != 0 || b != 0 {
      var h := Pow2(k - 1);
      Pow2Positive(k - 1);
      DivMod(a, 2 * h);
      var q := a / (2 * h);
      assert a == 2 * (q * h) by {
        assert q * (2 * h) == 2 * (q * h);
      }
      DivModUnique(a / 2, h, q, 0);
      OrDisjoint(a / 2, b / 2, k - 1);
    }
  }

  lemma {:induction false} OrIsZero(a: nat, b: nat)
    ensures Or(a, b) == 0 <==> a == 0 && b == 0
  {
    if a != 0 || b != 0 {
      OrIsZero(a / 2, b / 2);
    }
  }

  lemma {:induction false} OrBound(a: nat, b: nat, k: nat)
    requires a < Pow2(k) && b < Pow2(k)
    ensures Or(a, b) < Pow2(k)
  {
    if a != 0 || b != 0 {
      OrBound(a / 2, b / 2, k - 1);
    }
  }

  lemma {:induction false} BitLengthBounds(w: nat)
    ensures w < Pow2(BitLength(w))
    ensures w > 0 ==> BitLength(w) > 0 && Pow2(BitLength(w) - 1) <= w
  {
    if w > 0 {
      BitLengthBounds(w / 2);
    }
  }

  lemma {:induction false} BitLengthBelow(w: nat, k: nat)
    requires w < Pow2(k)
    ensures BitLength(w) <= k
  {
    BitLengthBounds(w);
    if BitLength(w) > k {
      Pow2Monotone(k, BitLength(w) - 1);
    }
  }

  lemma {:induction false} ScaleBelow(d: nat, k: nat, s: nat)
    requires d < Pow2(k)
    ensures d * Pow2(s) < Pow2(k + s)
  {
    Pow2Add(k, s);
    Pow2Positive(s);
    MulStrict(Pow2(s), d, Pow2(k));
  }

  lemma {:induction false} ScaleAbove(d: nat, k: nat, s: nat)
    requires Pow2(k) <= d
    ensures Pow2(k + s) <= d * Pow2(s)
  {
    Pow2Add(k, s);
    MulMonotone(Pow2(s), Pow2(k), d);
  }

  lemma PowerTable()
    ensures Pow2(1) == 2 && Pow2(11) == 0x800
    ensures Pow2(52) == 0x10_0000_0000_0000 && Pow2(53) == 0x20_0000_0000_0000
    ensures Pow2(63) == 0x8000_0000_0000_0000
  {
    assert Pow2(10) == 0x400;
    Pow2Add(10, 10);
    Pow2Add(20, 20);
    Pow2Add(40, 10);
    assert Pow2(52) == 4 * Pow2(50);
    Pow2Add(53, 10);
  }
}
