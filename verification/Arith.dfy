/**
 Integer facts the limb proofs rest on: powers, Euclidean division, and the
 handful of nonlinear steps that are kept out of the larger proofs.
 */
module Arith {

  function Pow(b: nat, e: nat): nat {
    if e == 0 then 1 else b * Pow(b, e - 1)
  }

  function Pow2(e: nat): nat {
    Pow(2, e)
  }

  lemma {:induction false} PowPositive(b: nat, e: nat)
    requires b > 0
    ensures Pow(b, e) > 0
  {
    if e > 0 {
      PowPositive(b, e - 1);
    }
  }

  lemma {:induction false} PowAdd(b: nat, m: nat, n: nat)
    ensures Pow(b, m + n) == Pow(b, m) * Pow(b, n)
  {
    if m > 0 {
      PowAdd(b, m - 1, n);
      MulAssoc(b, Pow(b, m - 1), Pow(b, n));
    }
  }

  lemma {:induction false} PowMonotone(b: nat, m: nat, n: nat)
    requires b > 0 && m <= n
    ensures Pow(b, m) <= Pow(b, n)
  {
    PowAdd(b, m, n - m);
    PowPositive(b, n - m);
    MulMonotone(Pow(b, m), 1, Pow(b, n - m));
  }

  lemma {:induction false} PowStrict(b: nat, m: nat, n: nat)
    requires b > 1 && m < n
    ensures Pow(b, m) < Pow(b, n)
  {
    PowMonotone(b, m, n - 1);
    PowPositive(b, n - 1);
    MulStrict(Pow(b, n - 1), 1, b);
  }

  lemma Pow2Positive(e: nat)
    ensures Pow2(e) > 0
  {
    PowPositive(2, e);
  }

  lemma Pow2Add(m: nat, n: nat)
    ensures Pow2(m + n) == Pow2(m) * Pow2(n)
  {
    PowAdd(2, m, n);
  }

  lemma Pow2Monotone(m: nat, n: nat)
    requires m <= n
    ensures Pow2(m) <= Pow2(n)
  {
    PowMonotone(2, m, n);
  }

  lemma Pow2Strict(m: nat, n: nat)
    requires m < n
    ensures Pow2(m) < Pow2(n)
  {
    PowStrict(2, m, n);
  }

  // (b^m)^n == b^(m n)
  lemma {:induction false} PowPow(b: nat, m: nat, n: nat)
    ensures Pow(Pow(b, m), n) == Pow(b, m * n)
  {
    if n > 0 {
      PowPow(b, m, n - 1);
      assert m * n == m + m * (n - 1);
      PowAdd(b, m, m * (n - 1));
    }
  }

  lemma MulAssoc(a: int, b: int, c: int)
    ensures a * (b * c) == (a * b) * c
  {
  }

  lemma MulMonotone(k: nat, a: int, b: int)
    requires a <= b
    ensures k * a <= k * b
  {
  }

  lemma MulStrict(k: nat, a: int, b: int)
    requires k > 0 && a < b
    ensures k * a < k * b
  {
  }

  lemma MulPositive(a: nat, b: nat)
    requires a > 0 && b > 0
    ensures a * b > 0
  {
  }

  lemma DivModUnique(x: int, d: int, q: int, r: int)
    requires d > 0 && x == q * d + r && 0 <= r < d
    ensures x / d == q && x % d == r
  {
    var q', r' := x / d, x % d;
    assert x == q' * d + r';
    assert (q - q') * d == r' - r;
    if q > q' {
      MulMonotone(d, 1, q - q');
    } else if q < q' {
      MulMonotone(d, 1, q' - q);
    }
  }

  lemma DivMod(x: int, d: int)
    requires d > 0
    ensures x == (x / d) * d + x % d && 0 <= x % d < d
  {
  }

  lemma SmallMod(x: nat, m: nat)
    requires x < m
    ensures x % m == x
  {
    DivModUnique(x, m, 0, x);
  }

  lemma DivBelow(x: nat, d: nat, m: nat)
    requires d > 0 && x < m * d
    ensures x / d < m
  {
    DivMod(x, d);
    if x / d >= m {
      MulMonotone(d, m, x / d);
    }
  }

  lemma DivAtLeast(x: nat, d: nat, m: nat)
    requires d > 0 && m * d <= x
    ensures m <= x / d
  {
    DivMod(x, d);
    if x / d < m {
      MulMonotone(d, x / d + 1, m);
    }
  }

  // Dividing twice is dividing by the product.
  lemma DivDiv(x: nat, c: nat, d: nat)
    requires c > 0 && d > 0
    ensures c * d > 0 && x / (c * d) == (x / c) / d
  {
    MulPositive(c, d);
    var q, r := x / c, x % c;
    var q', r' := q / d, q % d;
    DivMod(x, c);
    DivMod(q, d);
    assert x == q' * (c * d) + (r' * c + r) by {
      assert q * c == (q' * d + r') * c == q' * (c * d) + r' * c;
    }
    MulMonotone(c, r' + 1, d);
    assert r' * c + c == c * (r' + 1) <= c * d;
    DivModUnique(x, c * d, q', r' * c + r);
  }

  // (k d + r) mod d when the remainder is reduced separately.
  lemma ModAddMultiple(k: int, d: int, r: int)
    requires d > 0
    ensures (k * d + r) % d == r % d
  {
    DivMod(r, d);
    assert k * d + r == (k + r / d) * d + r % d;
    DivModUnique(k * d + r, d, k + r / d, r % d);
  }

  lemma CancelMul(k: nat, a: int, b: int)
    requires k > 0
    ensures k * a == k * b ==> a == b
    ensures k * a < k * b ==> a < b
    ensures k * a <= k * b ==> a <= b
  {
    if a < b {
      MulStrict(k, a, b);
    } else if b < a {
      MulStrict(k, b, a);
    }
  }

  // One position of a carry chain: digit r with carry-out co stands for a + b + ci.
  lemma CarryStep(vr: int, va: int, vb: int, ci: int, co: int, r: int, a: int, b: int, m: int, base: int)
    requires vr + ci * m == va + vb
    requires r + co * base == a + b + ci
    ensures vr + r * m + co * (base * m) == (va + a * m) + (vb + b * m)
  {
    MulAssoc(co, base, m);
    assert (r + co * base) * m == r * m + co * base * m;
    assert (a + b + ci) * m == a * m + b * m + ci * m;
  }

  // The same for a borrow chain.
  lemma BorrowStep(vr: int, va: int, vb: int, bi: int, bo: int, r: int, a: int, b: int, m: int, base: int)
    requires vr - bi * m == va - vb
    requires r - bo * base == a - b - bi
    ensures vr + r * m - bo * (base * m) == (va + a * m) - (vb + b * m)
  {
    MulAssoc(bo, base, m);
    assert (r - bo * base) * m == r * m - bo * base * m;
    assert (a - b - bi) * m == a * m - b * m - bi * m;
  }

  // A larger leading digit wins whatever follows it.
  lemma LeadingDigit(x: nat, y: nat, a: nat, b: nat, m: nat)
    requires x < m && a < b
    ensures x + a * m < y + b * m
  {
    MulMonotone(m, a + 1, b);
    assert (a + 1) * m == a * m + m;
  }
}
