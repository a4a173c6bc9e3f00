/**
 Division of limb arrays: bitwise long division by another limb array, and
 word-by-word division by a single u64.
 */
module UintDiv {
  import opened Arith
  import opened Words
  import opened Limbs
  import opened UintLinear
  import opened UintShift

  // Quotient and remainder of x by d.
  ghost predicate IsDivision(x: nat, d: nat, q: nat, r: nat) {
    x == q * d + r && r < d
  }

  lemma DivisionUnique(x: nat, d: nat, q: nat, r: nat, q': nat, r': nat)
    requires IsDivision(x, d, q, r) && IsDivision(x, d, q', r')
    ensures q == q' && r == r'
  {
    DivModUnique(x, d, q, r);
    DivModUnique(x, d, q', r');
  }

  // Long division with the quotient bits below `shift` still to be decided.
  ghost predicate Dividing(x: nat, d: nat, q: nat, r: nat, shift: nat) {
    x == q * d + r && r < d * Pow2(shift)
  }

  // The quotient bits below `shift` are clear.
  ghost predicate ClearBelow(ret: Limbs, shift: nat) {
    && shift <= 64 * |ret|
    && (forall k :: 0 <= k < shift / 64 ==> ret[k] == 0)
    && (shift < 64 * |ret| ==> Pow2(shift % 64) > 0 && ret[shift / 64] % Pow2(shift % 64) == 0)
  }

  // Before and after bit `shift` of the quotient is decided.
  ghost predicate Undecided(x: nat, d: nat, ret: Limbs, r: nat, shift: nat) {
    Dividing(x, d, Value(ret), r, shift + 1) && ClearBelow(ret, shift + 1)
  }

  ghost predicate Decided(x: nat, d: nat, ret: Limbs, r: nat, shift: nat) {
    Dividing(x, d, Value(ret), r, shift) && ClearBelow(ret, shift)
  }

  // The quotient with bit `shift` set.
  function WithBit(ret: Limbs, shift: nat): Limbs
    requires shift < 64 * |ret|
  {
    BaseIsPow2();
    OrBound(ret[shift / 64], ShiftLeft(1, shift % 64), 64);
    ret[shift / 64 := Or(ret[shift / 64], ShiftLeft(1, shift % 64))]
  }

  // The source panics on a zero divisor. The `<<`, `>>` and `-` below never overflow:
  // what their debug assertions demand is asserted before each.
  method DivRem(a: Limbs, b: Limbs) returns (q: Limbs, r: Limbs)
    requires |a| == |b| && Value(b) != 0
    ensures |q| == |r| == |a|
    ensures IsDivision(Value(a), Value(b), Value(q), Value(r))
  {
    var myBits := Bits(a);
    var yourBits := Bits(b);
    if myBits < yourBits {
      FewerBits(Value(a), Value(b));
      return Zeros(|a|), a;
    }
    var shift: nat := myBits - yourBits;
    StartShift(a, b, shift);
    assert shift < 64 * |a|;
    var shifted := Shl(b, shift);
    q, r := LongDivision(a, shifted, shift, Value(b));
  }

  // The loop of div_rem, from the divisor aligned with the dividend.
  method LongDivision(a: Limbs, shifted: Limbs, start: nat, ghost d: nat) returns (q: Limbs, r: Limbs)
    requires |a| == |shifted| && start < 64 * |a| && Value(shifted) == d * Pow2(start)
    requires Undecided(Value(a), d, Zeros(|a|), Value(a), start)
    ensures |q| == |r| == |a|
    ensures IsDivision(Value(a), d, Value(q), Value(r))
  {
    var subCopy, shiftCopy := a, shifted;
    var shift: nat := start;
    var ret := new Word[|a|](i => 0);
    assert ret[..] == Zeros(|a|);
    while true
      invariant |subCopy| == |shiftCopy| == |a|
      invariant shift < 64 * |a| && Undecided(Value(a), d, ret[..], Value(subCopy), shift)
      invariant Value(shiftCopy) == d * Pow2(shift)
      decreases shift
    {
      if Compare(subCopy, shiftCopy) != Less {
        BitIsOne(Value(a), d, ret[..], Value(subCopy), shift);
        SetQuotientBit(ret, shift);
        assert Value(subCopy) >= Value(shiftCopy);
        subCopy := Sub(subCopy, shiftCopy);
      } else {
        BitIsZero(Value(a), d, ret[..], Value(subCopy), shift);
      }
      assert 1 < 64 * |a|;
      shiftCopy := Shr(shiftCopy, 1);
      if shift == 0 {
        LastBit(Value(a), d, ret[..], Value(subCopy));
        return ret[..], subCopy;
      }
      HalveScaled(d, shift);
      NextBit(Value(a), d, ret[..], Value(subCopy), shift);
      shift := shift - 1;
    }
  }

  method SetQuotientBit(ret: array<Word>, shift: nat)
    requires shift < 64 * ret.Length
    modifies ret
    ensures ret[..] == WithBit(old(ret[..]), shift)
  {
    var shiftIndex, shiftVal := shift / 64, shift % 64;
    BaseIsPow2();
    OrBound(ret[shiftIndex], ShiftLeft(1, shiftVal), 64);
    ghost var updated := WithBit(ret[..], shift);
    ret[shiftIndex] := Or(ret[shiftIndex], ShiftLeft(1, shiftVal));
    assert ret[..] == updated;
  }

  lemma {:induction false} FewerBits(x: nat, d: nat)
    requires BitLength(x) < BitLength(d)
    ensures IsDivision(x, d, 0, x)
  {
    BitLengthBounds(x);
    BitLengthBounds(d);
    Pow2Monotone(BitLength(x), BitLength(d) - 1);
  }

  lemma {:induction false} LastBit(x: nat, d: nat, ret: Limbs, r: nat)
    requires Decided(x, d, ret, r, 0)
    ensures IsDivision(x, d, Value(ret), r)
  {
    assert Pow2(0) == 1;
  }

  lemma {:induction false} StartShift(a: Limbs, b: Limbs, shift: nat)
    requires |a| == |b| && Value(b) > 0
    requires BitLength(Value(a)) >= BitLength(Value(b)) && shift == BitLength(Value(a)) - BitLength(Value(b))
    requires BitLength(Value(a)) <= 64 * |a|
    ensures shift < 64 * |a|
    ensures Modulus(|a|) > 0 && (Value(b) * Pow2(shift)) % Modulus(|a|) == Value(b) * Pow2(shift)
    ensures Undecided(Value(a), Value(b), Zeros(|a|), Value(a), shift)
  {
    AlignedBounds(Value(a), Value(b));
    assert Value(b) * Pow2(shift) < Modulus(|a|) by {
      ModulusIsPow2(|a|);
      Pow2Monotone(BitLength(Value(a)), 64 * |a|);
    }
    SmallMod(Value(b) * Pow2(shift), Modulus(|a|));
    BitLengthBounds(Value(b));
    ClearStart(|a|, shift + 1);
  }

  lemma {:induction false} ClearStart(n: nat, shift: nat)
    requires shift <= 64 * n
    ensures ClearBelow(Zeros(n), shift)
  {
    Pow2Positive(shift % 64);
  }

  // Shifting the divisor to the dividend's bit length loses nothing and leaves
  // the dividend below twice the shifted divisor.
  lemma {:induction false} AlignedBounds(x: nat, d: nat)
    requires d > 0 && BitLength(x) >= BitLength(d)
    ensures var shift := BitLength(x) - BitLength(d);
      d * Pow2(shift) < Pow2(BitLength(x)) && x < d * Pow2(shift + 1)
  {
    BitLengthBounds(x);
    BitLengthBounds(d);
    var shift := BitLength(x) - BitLength(d);
    ScaleBelow(d, BitLength(d), shift);
    ScaleAbove(d, BitLength(d) - 1, shift + 1);
  }

  lemma {:induction false} BitIsOne(x: nat, d: nat, ret: Limbs, r: nat, shift: nat)
    requires shift < 64 * |ret| && Undecided(x, d, ret, r, shift) && r >= d * Pow2(shift)
    ensures Decided(x, d, WithBit(ret, shift), r - d * Pow2(shift), shift)
  {
    SetBit(ret, shift);
    Subtract(x, d, Value(ret), r, shift);
  }

  lemma {:induction false} BitIsZero(x: nat, d: nat, ret: Limbs, r: nat, shift: nat)
    requires shift < 64 * |ret| && Undecided(x, d, ret, r, shift) && r < d * Pow2(shift)
    ensures Decided(x, d, ret, r, shift)
  {
    BitIsClear(ret, shift);
    Pow2Positive(shift % 64);
    MultipleOfDouble(ret[shift / 64], Pow2(shift % 64));
  }

  lemma {:induction false} NextBit(x: nat, d: nat, ret: Limbs, r: nat, shift: nat)
    requires shift > 0 && Decided(x, d, ret, r, shift)
    ensures Undecided(x, d, ret, r, shift - 1)
  {
  }

  // With everything below shift + 1 clear, limb shift / 64 is clear up to and
  // including bit shift % 64.
  lemma {:induction false} BitIsClear(ret: Limbs, shift: nat)
    requires shift < 64 * |ret| && ClearBelow(ret, shift + 1)
    ensures Pow2(shift % 64) > 0 && ret[shift / 64] % (2 * Pow2(shift % 64)) == 0
    ensures forall k :: 0 <= k < shift / 64 ==> ret[k] == 0
  {
    Pow2Positive(shift % 64);
    if shift % 64 == 63 {
      assert (shift + 1) / 64 == shift / 64 + 1;
      assert ret[shift / 64] == 0;
    } else {
      assert (shift + 1) / 64 == shift / 64 && (shift + 1) % 64 == shift % 64 + 1;
    }
  }

  // Setting a clear quotient bit adds its weight.
  lemma {:induction false} SetBit(ret: Limbs, shift: nat)
    requires shift < 64 * |ret| && ClearBelow(ret, shift + 1)
    ensures Value(WithBit(ret, shift)) == Value(ret) + Pow2(shift)
    ensures ClearBelow(WithBit(ret, shift), shift)
  {
    var i, s := shift / 64, shift % 64;
    BitIsClear(ret, shift);
    OrBit(ret[i], s);
    ValueUpdate(ret, i, WithBit(ret, shift)[i]);
    ModulusIsPow2(i);
    Pow2Add(s, 64 * i);
  }

  lemma {:induction false} OrBit(w: Word, s: nat)
    requires s < 64 && Pow2(s) > 0 && w % (2 * Pow2(s)) == 0
    ensures Or(w, ShiftLeft(1, s)) == w + Pow2(s)
    ensures Or(w, ShiftLeft(1, s)) % Pow2(s) == 0
  {
    var bit := Pow2(s);
    BaseIsPow2();
    Pow2Strict(s, 64);
    SmallMod(1 * bit, BASE);
    OrDisjoint(w, bit, s + 1);
    MultipleOfDouble(w, bit);
  }

  lemma MultipleOfDouble(w: nat, bit: nat)
    requires bit > 0 && w % (2 * bit) == 0
    ensures w % bit == 0 && (w + bit) % bit == 0
  {
    DivMod(w, 2 * bit);
    var q := w / (2 * bit);
    assert w == (2 * q) * bit by {
      assert q * (2 * bit) == (2 * q) * bit;
    }
    ModAddMultiple(2 * q, bit, 0);
    ModAddMultiple(2 * q + 1, bit, 0);
    assert (2 * q + 1) * bit == w + bit;
  }

  lemma {:induction false} Subtract(x: nat, d: nat, q: nat, r: nat, shift: nat)
    requires Dividing(x, d, q, r, shift + 1) && r >= d * Pow2(shift)
    ensures Dividing(x, d, q + Pow2(shift), r - d * Pow2(shift), shift)
  {
    var p := Pow2(shift);
    assert Pow2(shift + 1) == 2 * p;
    assert d * (2 * p) == 2 * (d * p);
    assert (q + p) * d == q * d + d * p;
  }

  lemma {:induction false} HalveScaled(d: nat, shift: nat)
    requires shift > 0
    ensures Pow2(1) == 2 && (d * Pow2(shift)) / 2 == d * Pow2(shift - 1)
  {
    assert d * (2 * Pow2(shift - 1)) == 2 * (d * Pow2(shift - 1));
  }

  // div_rem_u64: from the most significant limb down, carrying the remainder.
  method DivRemU64(a: Limbs, d: Word) returns (q: Limbs, r: Word)
    requires d != 0
    ensures |q| == |a|
    ensures IsDivision(Value(a), d, Value(q), r)
  {
    var self := new Word[|a|](i requires 0 <= i < |a| => a[i]);
    assert self[..] == a;
    var rem: Word := 0;
    var i := |a|;
    while i > 0
      invariant 0 <= i <= |a|
      invariant self[..i] == a[..i]
      invariant rem < d
      invariant Value(a[i..]) == Value(self[i..]) * d + rem
    {
      i := i - 1;
      ghost var done, before := self[i + 1..], rem;
      assert self[i] == self[..i + 1][i] == a[..i + 1][i] == a[i];
      var n := rem * BASE + self[i];
      DivWord(rem, self[i], d);
      self[i], rem := (n / d) % BASE, (n % d) % BASE;
      assert self[..i] == a[..i] by {
        assert a[..i + 1][..i] == a[..i];
      }
      assert self[i + 1..] == done;
      assert self[i..] == [self[i]] + done;
      DivWordStep(a, i, done, self[i], d, before, rem);
    }
    assert a[0..] == a && self[0..] == self[..];
    return self[..], rem;
  }

  lemma {:induction false} DivWord(rem: Word, w: Word, d: Word)
    requires rem < d
    ensures ((rem * BASE + w) / d) % BASE == (rem * BASE + w) / d
    ensures ((rem * BASE + w) % d) % BASE == (rem * BASE + w) % d
  {
    MulMonotone(BASE, rem + 1, d);
    DivBelow(rem * BASE + w, d, BASE);
  }

  lemma {:induction false} DivWordStep(a: Limbs, i: nat, done: Limbs, w: Word, d: Word, rem: Word, rem': Word)
    requires i < |a| && d > 0
    requires Value(a[i + 1..]) == Value(done) * d + rem
    requires w == (rem * BASE + a[i]) / d && rem' == (rem * BASE + a[i]) % d
    ensures Value(a[i..]) == Value([w] + done) * d + rem'
  {
    ValueDrop(a, i);
    assert ([w] + done)[1..] == done;
    DivMod(rem * BASE + a[i], d);
    DivWordArith(Value(a[i + 1..]), a[i], Value(done), w, d, rem, rem', BASE);
  }

  lemma DivWordArith(va: int, ai: int, vq: int, w: int, d: int, rem: int, rem': int, base: int)
    requires va == vq * d + rem && rem * base + ai == w * d + rem'
    ensures ai + base * va == (w + base * vq) * d + rem'
  {
    assert base * (vq * d + rem) == (base * vq) * d + rem * base;
    assert (w + base * vq) * d == w * d + (base * vq) * d;
  }

  // Dividing by a single word and dividing by the same number as limbs agree.
  lemma DivRemU64Agrees(a: Limbs, d: Word, q: Limbs, r: Limbs, q': Limbs, r': Word)
    requires |a| > 0 && d != 0 && |q| == |r| == |q'| == |a|
    requires IsDivision(Value(a), Value(FromWord(d, |a|)), Value(q), Value(r))
    requires IsDivision(Value(a), d, Value(q'), r')
    ensures q == q' && r == FromWord(r', |a|)
  {
    DivisionUnique(Value(a), d, Value(q), Value(r), Value(q'), r');
    ValueInjective(q, q');
    ValueInjective(r, FromWord(r', |a|));
  }
}
