/**
 Multiplication of limb arrays. The result is the product modulo 2^(64 n); the
 overflow flag of the general routine is characterised exactly, including the
 partial products it never looks at.
 */
module UintMul {
  import opened Arith
  import opened Words
  import opened Limbs

  // carrying_mul_u64 keeps the whole product: n limbs and one word of carry.
  method CarryingMulU64(a: Limbs, d: Word) returns (r: Limbs, carry: Word)
    ensures |r| == |a| && Value(r) + carry * Modulus(|a|) == Value(a) * d
  {
    var self := new Word[|a|](i requires 0 <= i < |a| => a[i]);
    var acc: nat := 0;
    for i := 0 to |a|
      invariant acc < BASE
      invariant self[i..] == a[i..]
      invariant Value(self[..i]) + acc * Modulus(i) == d * Value(a[..i])
    {
      ghost var done, before := self[..i], acc;
      assert self[i] == self[i..][0] == a[i];
      assert a[i..][1..] == a[i + 1..];
      var n := acc + d * self[i];
      WideProduct(d, self[i], acc, 0);
      self[i] := n % BASE;
      acc := (n / BASE) % BASE;
      assert self[i + 1..] == a[i + 1..];
      assert self[..][..i] == self[..i] == done && self[..][..i + 1] == self[..i + 1];
      MulWordStep(self[..], a, d, i, before, acc);
    }
    assert self[..] == self[..|a|] && a[..|a|] == a;
    return self[..], acc;
  }

  // A product of two words plus two more words fits in 128 bits.
  lemma {:induction false} WideProduct(x: Word, y: Word, c: Word, e: Word)
    ensures (x * y + c + e) / BASE < BASE
    ensures ((x * y + c + e) / BASE) % BASE == (x * y + c + e) / BASE
  {
    MulMonotone(x, y, BASE - 1);
    MulMonotone(BASE - 1, x, BASE - 1);
    DivBelow(x * y + c + e, BASE, BASE);
  }

  lemma {:induction false} MulWordStep(r: Limbs, a: Limbs, d: Word, i: nat, cin: nat, cout: nat)
    requires i < |r| == |a|
    requires Value(r[..i]) + cin * Modulus(i) == d * Value(a[..i])
    requires r[i] + cout * BASE == d * a[i] + cin
    ensures Value(r[..i + 1]) + cout * Modulus(i + 1) == d * Value(a[..i + 1])
  {
    ValueSnoc(r, i);
    ValueSnoc(a, i);
    RowArith(Value(r[..i]), 0, Value(a[..i]), cin, cout, r[i], 0, a[i], d, 1, Modulus(i), BASE);
  }

  // What a truncated product with an overflow flag must return.
  ghost predicate IsTruncated(product: nat, n: nat, r: Limbs, overflow: bool) {
    && |r| == n && Modulus(n) > 0
    && Value(r) == product % Modulus(n)
    && (overflow <==> product >= Modulus(n))
  }

  method OverflowingMulU64(a: Limbs, d: Word) returns (r: Limbs, overflow: bool)
    ensures IsTruncated(Value(a) * d, |a|, r, overflow)
  {
    var carry;
    r, carry := CarryingMulU64(a, d);
    overflow := carry != 0;
    ValueBound(r);
    Truncation(Value(a) * d, Modulus(|a|), Value(r), carry);
  }

  lemma Truncation(v: nat, m: nat, r: nat, k: nat)
    requires r < m && v == r + k * m
    ensures r == v % m && (k > 0 <==> v >= m)
  {
    DivModUnique(v, m, k, r);
    if k > 0 {
      MulMonotone(m, 1, k);
    }
  }

  // The partial products row j adds into the result: those below limb n.
  function Kept(a: Limbs, b: Limbs, j: nat): nat
    requires |a| == |b| && j <= |b|
  {
    if j == 0 then 0 else Kept(a, b, j - 1) + b[j - 1] * (Modulus(j - 1) * Value(a[..|a| - (j - 1)]))
  }

  // The partial products the rows skip, in units of 2^(64 n).
  function Skipped(a: Limbs, b: Limbs, j: nat): nat
    requires |a| == |b| && j <= |b|
  {
    if j == 0 then 0 else Skipped(a, b, j - 1) + b[j - 1] * Value(a[|a| - (j - 1)..])
  }

  // No pair of nonzero limbs meets at or above limb n.
  ghost predicate NoSkippedPair(a: Limbs, b: Limbs, rows: nat)
    requires |a| == |b| && rows <= |b|
  {
    forall i, j :: 0 <= i < |a| && 0 <= j < rows && i + j >= |a| ==> a[i] == 0 || b[j] == 0
  }

  method OverflowingMul(a: Limbs, b: Limbs) returns (r: Limbs, overflow: bool)
    requires |a| == |b|
    ensures |r| == |a| && Modulus(|a|) > 0
    ensures Value(r) == (Value(a) * Value(b)) % Modulus(|a|)
    ensures overflow <==> Kept(a, b, |b|) >= Modulus(|a|)
    ensures Value(a) * Value(b) < Modulus(|a|) <==> !overflow && NoSkippedPair(a, b, |b|)
  {
    var n := |a|;
    var result := new Word[n](i => 0);
    overflow := false;
    ghost var carries: nat := 0;
    LowZero(result[..]);
    for j := 0 to n
      invariant Value(result[..]) + carries * Modulus(n) == Kept(a, b, j)
      invariant overflow <==> carries > 0
    {
      ghost var row := result[..];
      var carry: Word := 0;
      var i := 0;
      assert a[..0] == [];
      while i + j < n
        invariant i + j <= n
        invariant RowSoFar(result[..], row, a, b[j], i, j, carry)
      {
        ghost var was, before := result[..], carry;
        var wide := a[i] * b[j] + result[i + j] + carry;
        WideProduct(a[i], b[j], result[i + j], carry);
        var low: Word := wide % BASE;
        result[i + j] := low;
        carry := wide / BASE;
        assert result[..] == was[i + j := low];
        RowStep(was, row, a, b[j], i, j, before, low, carry);
        i := i + 1;
      }
      overflow := overflow || carry != 0;
      assert result[..][..n] == result[..] && row[..n] == row;
      AddCarry(carries, carry, Modulus(n));
      carries := carries + carry;
    }
    r := result[..];
    MulResult(a, b, r, carries);
  }

  lemma {:induction false} MulResult(a: Limbs, b: Limbs, r: Limbs, carries: nat)
    requires |a| == |b| == |r| && Value(r) + carries * Modulus(|a|) == Kept(a, b, |b|)
    ensures Modulus(|a|) > 0 && Value(r) == (Value(a) * Value(b)) % Modulus(|a|)
    ensures carries > 0 <==> Kept(a, b, |b|) >= Modulus(|a|)
    ensures Value(a) * Value(b) < Modulus(|a|) <==> carries == 0 && NoSkippedPair(a, b, |b|)
  {
    var n := |a|;
    ValueBound(r);
    Truncation(Kept(a, b, n), Modulus(n), Value(r), carries);
    Product(a, b, n);
    assert b[..n] == b;
    ProductResidue(Value(a) * Value(b), Modulus(n), Value(r), carries, Skipped(a, b, n));
    SkippedZero(a, b, n);
  }

  lemma {:induction false} LowZero(s: Limbs)
    requires forall i :: 0 <= i < |s| ==> s[i] == 0
    ensures Value(s) == 0
  {
    ValueZero(s);
  }

  // Row j after i limbs: limbs from i + j up are untouched, those below hold
  // the old row plus d times the first i limbs of a, less the running carry.
  ghost predicate RowSoFar(r: Limbs, row: Limbs, a: Limbs, d: Word, i: nat, j: nat, carry: nat)
    requires |r| == |row| == |a| && i + j <= |a|
  {
    && r[i + j..] == row[i + j..]
    && Value(r[..i + j]) + carry * Modulus(i + j) == Value(row[..i + j]) + d * (Modulus(j) * Value(a[..i]))
  }

  lemma {:induction false} RowStep(r: Limbs, row: Limbs, a: Limbs, d: Word, i: nat, j: nat, cin: nat, w: Word,
                                   cout: nat)
    requires |r| == |row| == |a| && i + j < |a| && RowSoFar(r, row, a, d, i, j, cin)
    requires w + cout * BASE == a[i] * d + r[i + j] + cin
    ensures RowSoFar(r[i + j := w], row, a, d, i + 1, j, cout)
  {
    var k, s := i + j, r[i + j := w];
    assert r[k] == r[k..][0] == row[k..][0] == row[k];
    assert s[k + 1..] == r[k..][1..] == row[k..][1..] == row[k + 1..];
    assert s[..k] == r[..k];
    ValueSnoc(s, k);
    ValueSnoc(row, k);
    ValueSnoc(a, i);
    PowAdd(BASE, j, i);
    RowArith(Value(r[..k]), Value(row[..k]), Value(a[..i]), cin, cout, w, row[k], a[i], d,
             Modulus(j), Modulus(i), BASE);
  }

  lemma RowArith(vr: int, vw: int, va: int, ci: int, co: int, r: int, w: int, a: int, d: int, mj: int, mi: int,
                 base: int)
    requires vr + ci * (mj * mi) == vw + d * (mj * va)
    requires r + co * base == a * d + w + ci
    ensures vr + r * (mj * mi) + co * (base * (mj * mi)) == vw + w * (mj * mi) + d * (mj * (va + a * mi))
  {
    var m := mj * mi;
    CarryStep(vr, vw, d * (mj * va), ci, co, r, w, a * d, m, base);
    assert d * (mj * (va + a * mi)) == d * (mj * va) + (a * d) * m by {
      assert mj * (va + a * mi) == mj * va + a * m;
      assert d * (a * m) == (a * d) * m;
    }
  }

  lemma AddCarry(c: int, d: int, m: int)
    ensures (c + d) * m == c * m + d * m
  {
  }

  // Kept and skipped partial products make up the whole product.
  lemma {:induction false} Product(a: Limbs, b: Limbs, j: nat)
    requires |a| == |b| && j <= |b|
    ensures Kept(a, b, j) + Modulus(|a|) * Skipped(a, b, j) == Value(a) * Value(b[..j])
  {
    if j == 0 {
      assert b[..0] == [];
    } else {
      var k := j - 1;
      Product(a, b, k);
      ValueSnoc(b, k);
      ValueSplit(a, |a| - k);
      PowAdd(BASE, k, |a| - k);
      ProductArith(Kept(a, b, k), Skipped(a, b, k), Value(a[..|a| - k]), Value(a[|a| - k..]), Value(b[..k]), b[k],
                   Modulus(k), Modulus(|a| - k));
    }
  }

  lemma ProductArith(kept: int, skipped: int, lo: int, hi: int, vb: int, d: int, mk: int, mr: int)
    requires kept + (mk * mr) * skipped == (lo + mr * hi) * vb
    ensures kept + d * (mk * lo) + (mk * mr) * (skipped + d * hi) == (lo + mr * hi) * (vb + d * mk)
  {
    var m := mk * mr;
    assert m * (skipped + d * hi) == m * skipped + d * (m * hi);
    assert (lo + mr * hi) * (d * mk) == d * (mk * lo) + d * (m * hi) by {
      assert (lo + mr * hi) * mk == mk * lo + m * hi;
      assert (lo + mr * hi) * (d * mk) == d * ((lo + mr * hi) * mk);
    }
  }

  lemma ProductResidue(product: nat, m: nat, r: nat, carries: nat, skipped: nat)
    requires r < m && product == r + carries * m + m * skipped
    ensures r == product % m
    ensures product < m <==> carries == 0 && skipped == 0
  {
    assert product == r + (carries + skipped) * m;
    Truncation(product, m, r, carries + skipped);
  }

  lemma {:induction false} SkippedZero(a: Limbs, b: Limbs, j: nat)
    requires |a| == |b| && j <= |b|
    ensures Skipped(a, b, j) == 0 <==> NoSkippedPair(a, b, j)
  {
    if j > 0 {
      var k := j - 1;
      var top := a[|a| - k..];
      SkippedZero(a, b, k);
      ValueZero(top);
      assert Value(top) == 0 <==> forall i :: |a| - k <= i < |a| ==> a[i] == 0 by {
        assert forall i :: |a| - k <= i < |a| ==> a[i] == top[i - (|a| - k)];
        assert forall i :: 0 <= i < |top| ==> top[i] == a[i + (|a| - k)];
      }
      if b[k] > 0 && Value(top) > 0 {
        MulPositive(b[k], Value(top));
        assert Skipped(a, b, j) > 0;
      }
    }
  }

  // The flag alone does not decide overflow: 2^64 * 2^64 in two limbs overflows unnoticed.
  lemma FlagMissesOverflow()
    ensures var a: Limbs := [0, 1];
      Kept(a, a, 2) < Modulus(2) && Value(a) * Value(a) >= Modulus(2) && !NoSkippedPair(a, a, 2)
  {
    var a: Limbs := [0, 1];
    assert a[..2] == a && a[..1] == [0];
    assert Kept(a, a, 1) == 0 * (Modulus(0) * Value(a));
    assert Kept(a, a, 2) == 1 * (Modulus(1) * Value([0]));
    assert Value([0 as Word]) == 0;
    assert a[1..] == [1] && Value([1 as Word]) == 1;
    assert Value(a) == BASE;
    assert Modulus(2) == BASE * Modulus(1) == BASE * (BASE * Modulus(0)) == BASE * BASE;
    assert a[1] != 0 && 1 + 1 >= |a|;
  }

  // A raised flag is never a false alarm.
  lemma FlagMeansOverflow(a: Limbs, b: Limbs)
    requires |a| == |b| && Kept(a, b, |b|) >= Modulus(|a|)
    ensures Value(a) * Value(b) >= Modulus(|a|)
  {
    Product(a, b, |b|);
    assert b[..|b|] == b;
    ModulusPositive(|a|);
    MulMonotone(Modulus(|a|), 0, Skipped(a, b, |b|));
  }

  // Against a one-word multiplier nothing is skipped, so the general routine
  // and the fast path agree on the result and on the flag.
  lemma MulU64Agrees(a: Limbs, d: Word, r: Limbs, overflow: bool, r': Limbs, overflow': bool)
    requires |a| > 0 && |r| == |a|
    requires Modulus(|a|) > 0 && Value(r) == (Value(a) * Value(FromWord(d, |a|))) % Modulus(|a|)
    requires Value(a) * Value(FromWord(d, |a|)) < Modulus(|a|) <==>
             !overflow && NoSkippedPair(a, FromWord(d, |a|), |a|)
    requires IsTruncated(Value(a) * d, |a|, r', overflow')
    ensures r == r' && overflow == overflow'
  {
    ValueInjective(r, r');
  }
}
