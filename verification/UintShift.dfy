/**
 Bit length and the two shifts of `construct_uint!`. A left shift is
 multiplication by a power of two modulo 2^(64 n), a right shift is division
 by one, for every limb count and every shift amount.
 */
module UintShift {
  import opened Arith
  import opened Words
  import opened Limbs

  // `bits`: the position just above the highest set bit.
  method Bits(a: Limbs) returns (bits: nat)
    ensures bits == BitLength(Value(a))
    ensures bits <= 64 * |a|
  {
    var i := |a|;
    assert a[i..] == [];
    while i > 0
      invariant 0 <= i <= |a|
      invariant Value(a[i..]) == 0
    {
      i := i - 1;
      ValueDrop(a, i);
      if a[i] != 0 {
        var leadingZeros := LeadingZeros(a[i]);
        bits := 64 * (i + 1) - leadingZeros;
        TopLimbBits(a, i);
        return;
      }
    }
    assert a[0..] == a;
    return 0;
  }

  // u64::leading_zeros: the zero bits above the highest set one.
  function LeadingZeros(w: Word): (z: nat)
    ensures z + BitLength(w) == 64
  {
    BaseIsPow2();
    ZerosFrom(w, 64)
  }

  // The zero bits met going down from bit i - 1.
  function ZerosFrom(w: nat, i: nat): (z: nat)
    requires w < Pow2(i)
    ensures z + BitLength(w) == i
  {
    if i == 0 then 0
    else if w >= Pow2(i - 1) then
      BitLengthUnique(w, i);
      0
    else 1 + ZerosFrom(w, i - 1)
  }

  lemma {:induction false} TopLimbBits(a: Limbs, i: nat)
    requires i < |a| && a[i] != 0 && Value(a[i..]) == a[i]
    ensures BitLength(Value(a)) == 64 * i + BitLength(a[i])
  {
    var k, e, lo := BitLength(a[i]), 64 * i, Value(a[..i]);
    assert lo < Pow2(e) && Value(a) == lo + Pow2(e) * a[i] by {
      ValueSplit(a, i);
      ValueBound(a[..i]);
      ModulusIsPow2(i);
    }
    BitLengthBounds(a[i]);
    ScaledBounds(lo, e, a[i], k);
    BitLengthUnique(Value(a), e + k);
  }

  lemma {:induction false} ScaledBounds(lo: nat, e: nat, w: nat, k: nat)
    requires k > 0 && lo < Pow2(e) && Pow2(k - 1) <= w < Pow2(k)
    ensures Pow2(e + k - 1) <= lo + Pow2(e) * w < Pow2(e + k)
  {
    var m := Pow2(e);
    Pow2Add(e, k);
    Pow2Add(e, k - 1);
    MulMonotone(m, Pow2(k - 1), w);
    MulMonotone(m, w + 1, Pow2(k));
    assert m * (w + 1) == m * w + m;
  }

  lemma {:induction false} BitLengthUnique(v: nat, k: nat)
    requires k > 0 && Pow2(k - 1) <= v < Pow2(k)
    ensures BitLength(v) == k
  {
    Pow2Positive(k - 1);
    BitLengthBounds(v);
    BitLengthBelow(v, k);
    if BitLength(v) < k {
      Pow2Monotone(BitLength(v), k - 1);
    }
  }

  // The bits a word loses to its left neighbour when shifted left.
  function High(w: Word, s: nat): nat {
    w * Pow2(s) / BASE
  }

  lemma {:induction false} ShlWord(w: Word, s: nat)
    requires s < 64
    ensures Pow2(s) > 0
    ensures w * Pow2(s) == ShiftLeft(w, s) + BASE * High(w, s)
    ensures ShiftLeft(w, s) % Pow2(s) == 0
    ensures High(w, s) < Pow2(s)
    ensures s > 0 ==> ShiftRight(w, 64 - s) == High(w, s)
  {
    Pow2Positive(s);
    Pow2Positive(64 - s);
    BaseIsPow2();
    Pow2Add(s, 64 - s);
    ShlWordArith(w, Pow2(s), Pow2(64 - s), BASE);
  }

  lemma {:induction false} ShlWordArith(w: nat, p: nat, c: nat, base: nat)
    requires p > 0 && c > 0 && base == p * c && w < base
    ensures w * p == (w * p) % base + base * (w * p / base)
    ensures (w * p) % base % p == 0
    ensures w * p / base == w / c < p
  {
    DivMod(w, c);
    var q, r := w / c, w % c;
    assert w * p == q * base + r * p by {
      assert (q * c + r) * p == q * (p * c) + r * p;
    }
    MulStrict(p, r, c);
    DivModUnique(w * p, base, q, r * p);
    ModAddMultiple(r, p, 0);
    DivBelow(w, c, p);
  }

  // What position i receives from the limb below it.
  function HighAt(a: Limbs, i: nat, s: nat): nat
    requires i <= |a|
  {
    if i == 0 then 0 else High(a[i - 1], s)
  }

  ghost predicate IsShl(a: Limbs, words: nat, shifts: nat, r: Limbs)
    requires shifts < 64
  {
    && |r| == |a|
    && (forall i :: 0 <= i < |r| && i < words ==> r[i] == 0)
    && (forall i :: words <= i < |r| ==> r[i] == ShiftLeft(a[i - words], shifts) + HighAt(a, i - words, shifts))
  }

  method OverflowingShl(a: Limbs, amount: nat) returns (r: Limbs, overflows: bool)
    requires |a| > 0
    ensures |r| == |a| && (overflows <==> amount >= 64 * |a|)
    ensures Modulus(|a|) > 0
    ensures Value(r) == (Value(a) * Pow2(amount % (64 * |a|))) % Modulus(|a|)
  {
    overflows := amount >= 64 * |a|;
    var s := amount % (64 * |a|);
    r := ShlLimbs(a, s / 64, s % 64);
    ShlValue(a, s / 64, s % 64, r);
  }

  method ShlLimbs(a: Limbs, leftWords: nat, leftShifts: nat) returns (r: Limbs)
    requires leftWords < |a| && leftShifts < 64
    ensures IsShl(a, leftWords, leftShifts, r)
  {
    var n := |a|;
    var ret := new Word[n](i => 0);
    for i := leftWords to n
      invariant forall k :: leftWords <= k < i ==> ret[k] == ShiftLeft(a[k - leftWords], leftShifts)
      invariant forall k :: 0 <= k < leftWords ==> ret[k] == 0
    {
      ret[i] := ShiftLeft(a[i - leftWords], leftShifts);
    }
    HighAtZero(a);
    if leftShifts > 0 {
      var leftOver := 64 - leftShifts;
      for i := leftWords + 1 to n
        invariant forall k :: 0 <= k < leftWords ==> ret[k] == 0
        invariant forall k :: leftWords <= k < i ==>
          ret[k] == ShiftLeft(a[k - leftWords], leftShifts) + HighAt(a, k - leftWords, leftShifts)
        invariant forall k :: i <= k < n ==> ret[k] == ShiftLeft(a[k - leftWords], leftShifts)
      {
        OrShl(a[i - leftWords], a[i - 1 - leftWords], leftShifts);
        ret[i] := Or(ret[i], ShiftRight(a[i - 1 - leftWords], leftOver));
      }
    }
    return ret[..];
  }

  // The `<<` operator, whose debug assertion rules out amounts of 64 n or more.
  method Shl(a: Limbs, amount: nat) returns (r: Limbs)
    requires |a| > 0
    ensures |r| == |a| && Modulus(|a|) > 0
    ensures Value(r) == (Value(a) * Pow2(amount % (64 * |a|))) % Modulus(|a|)
    ensures amount < 64 * |a| ==> Value(r) == (Value(a) * Pow2(amount)) % Modulus(|a|)
  {
    var lost;
    r, lost := OverflowingShl(a, amount);
    if amount < 64 * |a| {
      SmallMod(amount, 64 * |a|);
    }
  }

  // The `>>` operator.
  method Shr(a: Limbs, amount: nat) returns (r: Limbs)
    requires |a| > 0
    ensures |r| == |a| && Pow2(amount) > 0 && Pow2(amount % (64 * |a|)) > 0
    ensures Value(r) == Value(a) / Pow2(amount % (64 * |a|))
    ensures amount < 64 * |a| ==> Value(r) == Value(a) / Pow2(amount)
  {
    var lost;
    r, lost := OverflowingShr(a, amount);
    Pow2Positive(amount);
    if amount < 64 * |a| {
      SmallMod(amount, 64 * |a|);
    }
  }

  lemma {:induction false} HighAtZero(a: Limbs)
    ensures forall i :: 0 <= i <= |a| ==> HighAt(a, i, 0) == 0
  {
  }

  lemma {:induction false} OrShl(w: Word, below: Word, s: nat)
    requires 0 < s < 64
    ensures Or(ShiftLeft(w, s), ShiftRight(below, 64 - s)) == ShiftLeft(w, s) + High(below, s) < BASE
  {
    ShlWord(w, s);
    ShlWord(below, s);
    OrDisjoint(ShiftLeft(w, s), High(below, s), s);
    BaseIsPow2();
    Pow2Strict(s, 64);
    OrBound(ShiftLeft(w, s), High(below, s), 64);
  }

  // The shifted limbs accumulate the shifted prefix, less what spills out on top.
  lemma {:induction false} ShlChain(a: Limbs, words: nat, shifts: nat, r: Limbs, i: nat)
    requires shifts < 64 && words <= |a| && IsShl(a, words, shifts, r) && i <= |a| - words
    ensures Value(r[..words + i]) + (Modulus(words) * Modulus(i)) * HighAt(a, i, shifts)
         == Modulus(words) * (Value(a[..i]) * Pow2(shifts))
  {
    if i == 0 {
      assert a[..0] == [];
      ValueZero(r[..words]);
    } else {
      var k := words + i - 1;
      ShlChain(a, words, shifts, r, i - 1);
      ValueSnoc(r, k);
      ValueSnoc(a, i - 1);
      ShlWord(a[i - 1], shifts);
      PowAdd(BASE, words, i - 1);
      ShlArith(Value(r[..k]), Value(a[..i - 1]), a[i - 1], ShiftLeft(a[i - 1], shifts),
               HighAt(a, i - 1, shifts), HighAt(a, i, shifts), Modulus(words), Modulus(i - 1), Pow2(shifts), BASE);
    }
  }

  lemma {:induction false} ShlArith(vr: int, va: int, w: int, low: int, h0: int, h: int, m: int, mi: int, p: int,
                                    base: int)
    requires vr + (m * mi) * h0 == m * (va * p)
    requires w * p == low + base * h
    ensures vr + (low + h0) * (m * mi) + (m * (base * mi)) * h == m * ((va + w * mi) * p)
  {
    var t := m * mi;
    assert t * (w * p) == t * low + t * (base * h);
    assert t * (base * h) == (m * (base * mi)) * h;
    assert m * ((va + w * mi) * p) == m * (va * p) + t * (w * p) by {
      assert (va + w * mi) * p == va * p + mi * (w * p);
      MulAssoc(m, mi, w * p);
    }
  }

  lemma {:induction false} ShlValue(a: Limbs, words: nat, shifts: nat, r: Limbs)
    requires |a| > 0 && shifts < 64 && words < |a| && IsShl(a, words, shifts, r)
    ensures Modulus(|a|) > 0 && Value(r) == (Value(a) * Pow2(64 * words + shifts)) % Modulus(|a|)
  {
    var n, k := |a|, |a| - words;
    ModulusPositive(n);
    ShlChain(a, words, shifts, r, k);
    assert r[..n] == r;
    ValueSplit(a, k);
    ModulusIsPow2(words);
    Pow2Add(64 * words, shifts);
    PowAdd(BASE, words, k);
    ValueBound(r);
    ShlResidue(Value(r), Value(a[..k]), Value(a[k..]), HighAt(a, k, shifts), Modulus(words), Modulus(k), Pow2(shifts));
  }

  lemma {:induction false} ShlResidue(vr: nat, lo: nat, hi: nat, h: nat, m: nat, mk: nat, p: nat)
    requires vr + (m * mk) * h == m * (lo * p)
    requires vr < m * mk
    ensures vr == ((lo + mk * hi) * (m * p)) % (m * mk)
  {
    SplitProduct(lo, hi, m, mk, p);
    var t := m * mk;
    var q := p * hi + h;
    assert q * t == t * (p * hi) + t * h;
    ValueFromResidue((lo + mk * hi) * (m * p), t, vr, q);
  }

  lemma {:induction false} SplitProduct(lo: int, hi: int, m: int, mk: int, p: int)
    ensures (lo + mk * hi) * (m * p) == m * (lo * p) + (m * mk) * (p * hi)
  {
    assert (lo + mk * hi) * (m * p) == lo * (m * p) + (mk * hi) * (m * p);
    assert lo * (m * p) == m * (lo * p);
    assert (mk * hi) * (m * p) == (m * mk) * (p * hi);
  }

  lemma {:induction false} ShrWord(w: Word, s: nat)
    requires 0 < s < 64
    ensures Pow2(s) > 0 && Pow2(64 - s) > 0
    ensures ShiftLeft(w, 64 - s) == (w % Pow2(s)) * Pow2(64 - s)
    ensures ShiftLeft(w, 64 - s) % Pow2(64 - s) == 0
    ensures ShiftRight(w, s) < Pow2(64 - s)
  {
    Pow2Positive(s);
    Pow2Positive(64 - s);
    BaseIsPow2();
    Pow2Add(s, 64 - s);
    ShrWordArith(w, Pow2(s), Pow2(64 - s), BASE);
  }

  lemma {:induction false} ShrWordArith(w: nat, p: nat, c: nat, base: nat)
    requires p > 0 && c > 0 && base == p * c && w < base
    ensures (w * c) % base == (w % p) * c
    ensures ((w % p) * c) % c == 0
    ensures w / p < c
  {
    DivMod(w, p);
    var q, l := w / p, w % p;
    assert w * c == q * base + l * c by {
      assert (q * p + l) * c == q * (p * c) + l * c;
    }
    MulStrict(c, l, p);
    DivModUnique(w * c, base, q, l * c);
    ModAddMultiple(l, c, 0);
    DivBelow(w, p, c);
  }

  // The bits a word hands to its right neighbour when shifted right.
  function Low(w: Word, s: nat): (l: nat)
    ensures l < Pow2(s)
  {
    Pow2Positive(s);
    w % Pow2(s)
  }

  // What position i receives from the limb above it.
  function LowAt(a: Limbs, i: nat, s: nat): (l: nat)
    ensures l < Pow2(s)
  {
    Pow2Positive(s);
    if i < |a| then Low(a[i], s) else 0
  }

  function Carried(a: Limbs, i: nat, s: nat): nat
    requires s < 64
  {
    LowAt(a, i, s) * Pow2(64 - s)
  }

  ghost predicate IsShr(a: Limbs, words: nat, shifts: nat, r: Limbs)
    requires shifts < 64
  {
    && |r| == |a|
    && (forall i :: 0 <= i < |r| && i + words >= |a| ==> r[i] == 0)
    && (forall i :: 0 <= i < |r| && i + words < |a| ==>
          r[i] == ShiftRight(a[i + words], shifts) + Carried(a, i + words + 1, shifts))
  }

  method OverflowingShr(a: Limbs, amount: nat) returns (r: Limbs, overflows: bool)
    requires |a| > 0
    ensures |r| == |a| && (overflows <==> amount >= 64 * |a|)
    ensures Pow2(amount % (64 * |a|)) > 0
    ensures Value(r) == Value(a) / Pow2(amount % (64 * |a|))
  {
    overflows := amount >= 64 * |a|;
    var s := amount % (64 * |a|);
    r := ShrLimbs(a, s / 64, s % 64);
    ShrValue(a, s / 64, s % 64, r);
  }

  method ShrLimbs(a: Limbs, leftWords: nat, leftShifts: nat) returns (r: Limbs)
    requires leftWords < |a| && leftShifts < 64
    ensures IsShr(a, leftWords, leftShifts, r)
  {
    var n := |a|;
    var ret := new Word[n](i => 0);
    for i := leftWords to n
      invariant forall k :: 0 <= k < i - leftWords ==> ret[k] == ShiftRight(a[k + leftWords], leftShifts)
      invariant forall k :: i - leftWords <= k < n ==> ret[k] == 0
    {
      ret[i - leftWords] := ShiftRight(a[i], leftShifts);
    }
    forall i | 0 <= i <= n
      ensures leftShifts == 0 || i == n ==> Carried(a, i, leftShifts) == 0
    {
      CarriedNone(a, i, leftShifts);
    }
    if leftShifts > 0 {
      var leftOver := 64 - leftShifts;
      for i := leftWords + 1 to n
        invariant forall k :: n - leftWords <= k < n ==> ret[k] == 0
        invariant forall k :: i - leftWords - 1 <= k < n - leftWords ==> ret[k] == ShiftRight(a[k + leftWords], leftShifts)
        invariant forall k :: 0 <= k < i - leftWords - 1 ==>
          ret[k] == ShiftRight(a[k + leftWords], leftShifts) + Carried(a, k + leftWords + 1, leftShifts)
      {
        OrShr(a, i - 1, leftShifts);
        ret[i - leftWords - 1] := Or(ret[i - leftWords - 1], ShiftLeft(a[i], leftOver));
      }
    }
    return ret[..];
  }

  lemma {:induction false} OrShr(a: Limbs, i: nat, s: nat)
    requires 0 < s < 64 && i + 1 < |a|
    ensures Or(ShiftRight(a[i], s), ShiftLeft(a[i + 1], 64 - s)) == ShiftRight(a[i], s) + Carried(a, i + 1, s) < BASE
  {
    var w, above := a[i], a[i + 1];
    ShrWord(w, s);
    ShrWord(above, s);
    OrCommutes(ShiftRight(w, s), ShiftLeft(above, 64 - s));
    OrDisjoint(ShiftLeft(above, 64 - s), ShiftRight(w, s), 64 - s);
    BaseIsPow2();
    OrBound(ShiftRight(w, s), ShiftLeft(above, 64 - s), 64);
  }

  lemma {:induction false} CarriedNone(a: Limbs, i: nat, s: nat)
    requires s < 64
    ensures s == 0 || i >= |a| ==> Carried(a, i, s) == 0
  {
  }

  lemma {:induction false} OrCommutes(a: nat, b: nat)
    ensures Or(a, b) == Or(b, a)
  {
    if a != 0 || b != 0 {
      OrCommutes(a / 2, b / 2);
    }
  }

  lemma {:induction false} ShrChain(a: Limbs, words: nat, shifts: nat, r: Limbs, i: nat)
    requires shifts < 64 && words < |a| && IsShr(a, words, shifts, r) && i <= |a| - words
    ensures Pow2(shifts) * Value(r[..i]) + LowAt(a, words, shifts)
         == Value(a[words..words + i]) + LowAt(a, words + i, shifts) * Modulus(i)
  {
    if i == 0 {
      assert r[..0] == [] && a[words..words] == [];
    } else {
      var p, k := Pow2(shifts), words + i - 1;
      ShrChain(a, words, shifts, r, i - 1);
      ValueSnoc(r, i - 1);
      ValueSnoc(a[words..], i - 1);
      assert a[words..][..i] == a[words..words + i] && a[words..][..i - 1] == a[words..k];
      assert a[words..][i - 1] == a[k];
      var l0, l := LowAt(a, k, shifts), LowAt(a, k + 1, shifts);
      BaseIsPow2();
      Pow2Positive(shifts);
      Pow2Add(shifts, 64 - shifts);
      ShrLimb(a[k], l, p, Pow2(64 - shifts));
      ShrArith(Value(r[..i - 1]), Value(a[words..k]), r[i - 1], a[k], l0, l,
               LowAt(a, words, shifts), Modulus(i - 1), p, BASE);
    }
  }

  lemma {:induction false} ShrLimb(w: nat, l: nat, p: nat, c: nat)
    requires p > 0
    ensures p * (w / p + l * c) == w - w % p + l * (p * c)
  {
    DivMod(w, p);
    assert p * (w / p + l * c) == (w / p) * p + l * (p * c);
  }

  lemma {:induction false} ShrArith(vr: int, va: int, r: int, w: int, l0: int, l: int, first: int, m: int, p: int,
                                    base: int)
    requires p * vr + first == va + l0 * m
    requires p * r == w - l0 + l * base
    ensures p * (vr + r * m) + first == va + w * m + l * (base * m)
  {
    assert p * (vr + r * m) == p * vr + (p * r) * m;
    assert (w - l0 + l * base) * m == w * m - l0 * m + l * base * m;
    MulAssoc(l, base, m);
  }

  lemma {:induction false} ShrTotal(a: Limbs, words: nat, shifts: nat, r: Limbs)
    requires shifts < 64 && words < |a| && IsShr(a, words, shifts, r)
    ensures Pow2(shifts) * Value(r) + LowAt(a, words, shifts) == Value(a[words..])
  {
    var k := |a| - words;
    ShrChain(a, words, shifts, r, k);
    assert a[words..words + k] == a[words..];
    ValueSplit(r, k);
    ValueZero(r[k..]);
    assert Modulus(k) * Value(r[k..]) == 0;
    assert LowAt(a, words + k, shifts) * Modulus(k) == 0;
  }

  lemma {:induction false} ShrValue(a: Limbs, words: nat, shifts: nat, r: Limbs)
    requires |a| > 0 && shifts < 64 && words < |a| && IsShr(a, words, shifts, r)
    ensures Pow2(64 * words + shifts) > 0 && Value(r) == Value(a) / Pow2(64 * words + shifts)
  {
    ShrTotal(a, words, shifts, r);
    ValueSplit(a, words);
    ValueBound(a[..words]);
    ModulusIsPow2(words);
    Pow2Add(64 * words, shifts);
    ShrQuotient(Value(r), Value(a[..words]), Value(a[words..]), LowAt(a, words, shifts), Modulus(words), Pow2(shifts));
  }

  lemma {:induction false} ShrQuotient(vr: nat, lo: nat, hi: nat, l: nat, m: nat, p: nat)
    requires p * vr + l == hi && l < p && lo < m
    ensures m * p > 0 && vr == (lo + m * hi) / (m * p)
  {
    DivModUnique(hi, p, vr, l);
    DivModUnique(lo + m * hi, m, hi, lo);
    DivDiv(lo + m * hi, m, p);
  }
}
