/**
 Two changed symbols. They cancel exactly when their distance is a multiple of 1025,
 the order of x modulo the generator, and the changes are equal.
 */
module CodeOrder {
  import opened Arith
  import opened Checksum
  import opened CodePolynomial
  import opened CodeDistance
  import opened CodeSquares

  // ---- The powers of x that are scalars ----

  // x^n is a polynomial of degree zero modulo the generator.
  ghost predicate Scalar(n: nat) {
    TopZero(Advance(ONE, n), 7)
  }

  lemma TopDigits(c: State)
    ensures TopZero(c, 7) <==> forall k :: 0 <= k < 7 ==> Digits(c)[k] == 0
  {
    var d := Digits(c);
    assert d[0] == c.c7 && d[1] == c.c6 && d[2] == c.c5 && d[3] == c.c4 && d[4] == c.c3 && d[5] == c.c2 && d[6] == c.c1;
  }

  lemma {:induction false} ScaleTop(t: State, y: Symbol)
    requires y != 0
    ensures TopZero(Scale(t, y), 7) <==> TopZero(t, 7)
  {
    TopDigits(t);
    TopDigits(Scale(t, y));
    forall k | 0 <= k < 7
      ensures Digits(Scale(t, y))[k] == 0 <==> Digits(t)[k] == 0
    {
      ScaleDigits(t, y, 5, k);
      NoZeroDivisors(Digits(t)[k], y);
    }
  }

  // y times x^n.
  lemma {:induction false} ConstAdvance(y: Symbol, n: nat)
    ensures Advance(Const(y), n) == Scale(Advance(ONE, n), y)
  {
    ScaleOne(y);
    AdvanceScaleLow(ONE, y, 5, n);
  }

  lemma {:induction false} ScalarSum(m: nat, n: nat)
    requires Scalar(m)
    ensures Scalar(m + n) <==> Scalar(n)
  {
    var y := Advance(ONE, m).c0;
    assert Advance(ONE, m) == Const(y);
    AdvanceZero(ONE, m);
    AdvanceAdd(ONE, m, n);
    ConstAdvance(y, n);
    ScaleTop(Advance(ONE, n), y);
  }

  lemma {:induction false} ScalarMultiple(m: nat, k: nat)
    requires Scalar(m)
    ensures Scalar(k * m)
  {
    if k == 0 {
      AdvanceNext(ONE, 0);
    } else {
      ScalarMultiple(m, k - 1);
      ScalarSum(m, (k - 1) * m);
      assert k * m == m + (k - 1) * m;
    }
  }

  lemma {:induction false} ScalarMod(m: nat, n: nat)
    requires n > 0 && Scalar(n)
    ensures Scalar(m) <==> Scalar(m % n)
  {
    DivMod(m, n);
    ScalarMultiple(n, m / n);
    ScalarSum((m / n) * n, m % n);
  }

  // The exponents of scalars are closed under Euclid's algorithm.
  lemma {:induction false} ScalarDivisor(a: nat, b: nat) returns (g: nat)
    requires a > 0 && Scalar(a) && Scalar(b)
    ensures 0 < g <= a && Scalar(g) && a % g == 0 && b % g == 0
    decreases a
  {
    ScalarMod(b, a);
    if b % a == 0 {
      g := a;
    } else {
      g := ScalarDivisor(b % a, a);
      DividesSum(b, a, g);
    }
  }

  lemma DividesSum(b: nat, a: nat, g: nat)
    requires a > 0 && g > 0 && a % g == 0 && (b % a) % g == 0
    ensures b % g == 0
  {
    var p, q, r := a / g, b / a, (b % a) / g;
    DivMod(a, g);
    DivMod(b, a);
    DivMod(b % a, g);
    Factored(q, p, r, g);
    MultipleOf(q * p + r, g);
  }

  lemma Factored(q: nat, p: nat, r: nat, g: nat)
    ensures q * (p * g) + r * g == (q * p + r) * g
  {
    MulAssoc(q, p, g);
  }

  lemma MultipleOf(k: nat, g: nat)
    requires g > 0
    ensures (k * g) % g == 0
  {
    DivModUnique(k * g, g, k, 0);
  }

  // A proper divisor of 1025 = 5 * 5 * 41 divides 25 or 205.
  lemma ProperDivisors(g: nat)
    requires 0 < g < 1025 && 1025 % g == 0
    ensures 25 % g == 0 || 205 % g == 0
  {
    var q := 1025 / g;
    DivMod(1025, g);
    if g <= 32 {
      SmallFactor(g, q);
    } else {
      MulMonotone(q, 33, g);
      SmallFactor(q, g);
    }
  }

  lemma SmallFactor(x: nat, y: nat)
    requires 1 <= x <= 32 && x * y == 1025
    ensures x == 1 || x == 5 || x == 25
  {
    assert x == 1 || x == 2 || x == 3 || x == 4 || x == 5 || x == 6 || x == 7 || x == 8 || x == 9 || x == 10 || x == 11
        || x == 12 || x == 13 || x == 14 || x == 15 || x == 16 || x == 17 || x == 18 || x == 19 || x == 20 || x == 21
        || x == 22 || x == 23 || x == 24 || x == 25 || x == 26 || x == 27 || x == 28 || x == 29 || x == 30 || x == 31 || x == 32;
  }

  // x^n is a scalar exactly when n is a multiple of 1025, and then it is 1.
  lemma {:induction false} OrderOfX(n: nat)
    ensures Scalar(n) <==> n % 1025 == 0
    ensures n % 1025 == 0 ==> Advance(ONE, n) == ONE
  {
    Power1025();
    if n % 1025 == 0 {
      PowerMultiple(n / 1025);
    } else {
      NotScalar(n % 1025);
      ScalarMod(n, 1025);
    }
  }

  lemma {:induction false} PowerMultiple(k: nat)
    ensures Advance(ONE, k * 1025) == ONE
  {
    Power1025();
    if k == 0 {
      AdvanceNext(ONE, 0);
    } else {
      PowerMultiple(k - 1);
      AdvanceAdd(ONE, (k - 1) * 1025, 1025);
    }
  }

  lemma {:induction false} NotScalar(r: nat)
    requires 0 < r < 1025
    ensures !Scalar(r)
  {
    if Scalar(r) {
      Power1025();
      var g := ScalarDivisor(r, 1025);
      ProperDivisors(g);
      NoDivisor(g);
    }
  }

  lemma {:induction false} NoDivisor(g: nat)
    requires g > 0 && (25 % g == 0 || 205 % g == 0)
    ensures !Scalar(g)
  {
    Power25();
    Power205();
    if Scalar(g) {
      var n := if 25 % g == 0 then 25 else 205;
      DivMod(n, g);
      ScalarMultiple(g, n / g);
    }
  }

  // ---- Two errors ----

  // The change x, carried on over d symbols, meets the change y.
  lemma {:induction false} MeetExactly(x: Symbol, y: Symbol, d: nat)
    requires x != 0
    ensures Advance(Const(x), d) == Const(y) <==> d % 1025 == 0 && x == y
  {
    ConstAdvance(x, d);
    OrderOfX(d);
    if d % 1025 == 0 {
      ScaleOne(x);
    } else {
      ScaleTop(Advance(ONE, d), x);
    }
  }

  // The word of n symbols with x at position i and y at position j.
  function TwoSymbols(n: nat, i: nat, x: Symbol, j: nat, y: Symbol): (w: seq<Symbol>)
    requires i < j < n
    ensures |w| == n
  {
    Zeroes(i) + [x] + Zeroes(j - i - 1) + [y] + Zeroes(n - j - 1)
  }

  function Zeroes(n: nat): seq<Symbol> {
    seq(n, _ => 0 as Symbol)
  }

  lemma {:induction false} TwoSymbolsVanish(n: nat, i: nat, x: Symbol, j: nat, y: Symbol)
    requires i < j < n
    ensures Run(ZERO, TwoSymbols(n, i, x, j, y)) == ZERO <==> Advance(Const(x), j - i) == Const(y)
  {
    var head := Zeroes(i) + [x];
    var both := head + Zeroes(j - i - 1) + [y];
    RunFirst(i, x);
    RunSecond(head, Const(x), j - i - 1, y);
    RunTail(both, n - j - 1);
    XorZero(Advance(Const(x), j - i), Const(y));
  }

  lemma {:induction false} RunTail(w: seq<Symbol>, n: nat)
    ensures Run(ZERO, w + Zeroes(n)) == ZERO <==> Run(ZERO, w) == ZERO
  {
    RunConcat(ZERO, w, Zeroes(n));
    ZerosKeep(Run(ZERO, w), Zeroes(n));
  }

  lemma {:induction false} RunFirst(i: nat, x: Symbol)
    ensures Run(ZERO, Zeroes(i) + [x]) == Const(x)
  {
    ZerosKeep(ZERO, Zeroes(i));
    assert (Zeroes(i) + [x])[..i] == Zeroes(i);
    StepSmall(ZERO, x);
  }

  lemma {:induction false} RunSecond(head: seq<Symbol>, c: State, n: nat, y: Symbol)
    requires Run(ZERO, head) == c
    ensures Run(ZERO, head + Zeroes(n) + [y]) == Xor(Advance(c, n + 1), Const(y))
  {
    assert (head + Zeroes(n) + [y])[..|head| + n] == head + Zeroes(n);
    RunConcat(ZERO, head, Zeroes(n));
    AdvanceNext(c, n);
    StepAddsConst(Advance(c, n), y);
  }

  // Two words that differ in exactly the places i and j end in the same state if and
  // only if the places are a multiple of 1025 apart and the changes are the same.
  lemma {:induction false} TwoErrors(c: State, v: seq<Symbol>, w: seq<Symbol>, i: nat, j: nat)
    requires |v| == |w| && i < j < |v| && v[i] != w[i] && v[j] != w[j]
    requires forall k :: 0 <= k < |v| && k != i && k != j ==> v[k] == w[k]
    ensures Run(c, v) == Run(c, w) <==> (j - i) % 1025 == 0 && v[i] ^ w[i] == v[j] ^ w[j]
  {
    var x, y := v[i] ^ w[i], v[j] ^ w[j];
    DiffIsTwo(v, w, i, j);
    TwoSymbolsVanish(|v|, i, x, j, y);
    SymbolZero(v[i], w[i]);
    MeetExactly(x, y, j - i);
    RunXor(c, c, v, w);
    XorSelf(c);
    XorZero(Run(c, v), Run(c, w));
  }

  lemma DiffIsTwo(v: seq<Symbol>, w: seq<Symbol>, i: nat, j: nat)
    requires |v| == |w| && i < j < |v|
    requires forall k :: 0 <= k < |v| && k != i && k != j ==> v[k] == w[k]
    ensures Diff(v, w) == TwoSymbols(|v|, i, v[i] ^ w[i], j, v[j] ^ w[j])
  {
    var l, r := Diff(v, w), TwoSymbols(|v|, i, v[i] ^ w[i], j, v[j] ^ w[j]);
    forall k | 0 <= k < |v|
      ensures l[k] == r[k]
    {
      if k != i && k != j {
        SymbolZero(v[k], w[k]);
        TwoSymbolsAt(|v|, i, v[i] ^ w[i], j, v[j] ^ w[j], k);
      }
    }
  }

  lemma TwoSymbolsAt(n: nat, i: nat, x: Symbol, j: nat, y: Symbol, k: nat)
    requires i < j < n && k < n
    ensures TwoSymbols(n, i, x, j, y)[k] == if k == i then x else if k == j then y else 0
  {
  }
}
