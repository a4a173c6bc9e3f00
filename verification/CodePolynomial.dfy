/**
 What the checksum means: words are polynomials over the field of 32 elements,
 and polymod is the remainder of polynomial division by the code's generator.
 */
module CodePolynomial {
  import opened Checksum

  // ---- The field GF(2)[a] / (a^5 + a^3 + 1) ----

  // Multiplication by a.
  function Double(x: Symbol): Symbol {
    if x & 16 != 0 then (x << 1) ^ 9 else x << 1
  }

  // x times a^i
  function Doubled(x: Symbol, i: nat): Symbol {
    if i == 0 then x else Double(Doubled(x, i - 1))
  }

  // x times the polynomial held in the low i bits of y
  function TimesLow(x: Symbol, y: Symbol, i: nat): Symbol
    requires i <= 5
  {
    if i == 0 then 0
    else if Selected(y, i - 1) then TimesLow(x, y, i - 1) ^ Doubled(x, i - 1)
    else TimesLow(x, y, i - 1)
  }

  function Times(x: Symbol, y: Symbol): Symbol {
    TimesLow(x, y, 5)
  }

  // ---- Polynomials: coefficients, the highest first ----

  // x^8 + 19x^7 + 3x^6 + 25x^5 + 11x^4 + 25x^3 + 3x^2 + 19x + 1
  const GENERATOR: seq<Symbol> := [1, 19, 3, 25, 11, 25, 3, 19, 1]

  function Scaled(p: seq<Symbol>, y: Symbol): (r: seq<Symbol>)
    ensures |r| == |p|
  {
    seq(|p|, i requires 0 <= i < |p| => Times(p[i], y))
  }

  // The same polynomial written with n coefficients.
  function Pad(p: seq<Symbol>, n: nat): (r: seq<Symbol>)
    requires |p| <= n
    ensures |r| == n
  {
    seq(n - |p|, _ => 0 as Symbol) + p
  }

  // p + w; in characteristic two also p - w
  function Plus(p: seq<Symbol>, w: seq<Symbol>): (r: seq<Symbol>)
    requires |w| <= |p|
    ensures |r| == |p|
  {
    Diff(p, Pad(w, |p|))
  }

  // q times the generator, by Horner's rule: (q'x + c) g = (q'g) x + cg
  function Product(q: seq<Symbol>): (r: seq<Symbol>)
    ensures |r| == |q| + 8
  {
    if q == [] then ZEROS
    else
      var k := |q| - 1;
      Plus(Product(q[..k]) + [0], Scaled(GENERATOR, q[k]))
  }

  // r is what division of m by the generator leaves.
  ghost predicate IsRemainder(m: seq<Symbol>, r: seq<Symbol>)
    requires |r| == 8
  {
    exists q :: |q| == |m| && ZEROS + m == Plus(Product(q), r)
  }

  // ---- The selected generators are a multiple of the generator polynomial ----

  lemma GeneratorIsDoubled(i: nat, k: nat)
    requires i < 5 && k < 8
    ensures Digits(Generator(i))[k] == Doubled(GENERATOR[k + 1], i)
  {
    DoubledTable(GENERATOR[k + 1]);
  }

  lemma DoubledTable(x: Symbol)
    ensures Doubled(x, 0) == x
    ensures Doubled(x, 1) == Double(x)
    ensures Doubled(x, 2) == Double(Double(x))
    ensures Doubled(x, 3) == Double(Double(Double(x)))
    ensures Doubled(x, 4) == Double(Double(Double(Double(x))))
  {
  }

  // Digit-wise application of any operation.
  function Combine(f: (Symbol, Symbol) -> Symbol, a: State, b: State): State {
    State(f(a.c7, b.c7), f(a.c6, b.c6), f(a.c5, b.c5), f(a.c4, b.c4),
          f(a.c3, b.c3), f(a.c2, b.c2), f(a.c1, b.c1), f(a.c0, b.c0))
  }

  lemma CombineDigits(f: (Symbol, Symbol) -> Symbol, a: State, b: State, k: nat)
    requires k < 8
    ensures Digits(Combine(f, a, b))[k] == f(Digits(a)[k], Digits(b)[k])
  {
  }

  const XOR: (Symbol, Symbol) -> Symbol := (x, y) => x ^ y

  lemma XorIsCombine(a: State, b: State)
    ensures Xor(a, b) == Combine(XOR, a, b)
  {
  }

  lemma XorDigits(a: State, b: State, k: nat)
    requires k < 8
    ensures Digits(Xor(a, b))[k] == Digits(a)[k] ^ Digits(b)[k]
  {
    XorIsCombine(a, b);
    CombineDigits(XOR, a, b, k);
  }

  lemma {:induction false} ReduceIsScaled(y: Symbol, i: nat, k: nat)
    requires i <= 5 && k < 8
    ensures Digits(Reduce(ZERO, y, i))[k] == TimesLow(GENERATOR[k + 1], y, i)
  {
    if i > 0 {
      ReduceIsScaled(y, i - 1, k);
      GeneratorIsDoubled(i - 1, k);
      XorDigits(Reduce(ZERO, y, i - 1), Generator(i - 1), k);
    }
  }

  lemma {:induction false} TimesOneLow(y: Symbol, i: nat)
    requires i <= 5
    ensures TimesLow(1, y, i) == LowBits(y, i)
  {
    if i > 0 {
      TimesOneLow(y, i - 1);
      GeneratorIsDoubled(i - 1, 7);
      LowBitsStep(0, y, i);
      NoChange(LowBits(y, i));
      NoChange(LowBits(y, i - 1));
    }
  }

  lemma NoChange(x: Symbol)
    ensures 0 ^ x == x && x ^ 0 == x
  {
  }

  lemma Cancel(x: Symbol, y: Symbol)
    ensures x ^ (y ^ x) == y
  {
  }

  lemma {:induction false} StepSplit(c: State, d: Symbol)
    ensures Step(c, d) == Xor(Shifted(c, d), Reduce(ZERO, c.c7, 5))
  {
    var s := Shifted(c, d);
    ReduceXor(s, ZERO, 0, c.c7, 5);
    ReduceNone(s, 5);
    XorNone(s);
    NoChange(c.c7);
  }

  lemma {:induction false} StepDividesAt(c: State, d: Symbol, j: nat)
    requires j < 9
    ensures (Digits(c) + [d])[j] == Times(GENERATOR[j], c.c7) ^ ([0] + Digits(Step(c, d)))[j]
  {
    if j == 0 {
      TimesOneLow(c.c7, 5);
      NoChange(c.c7);
    } else {
      var s, r := Shifted(c, d), Reduce(ZERO, c.c7, 5);
      StepSplit(c, d);
      ShiftedDigits(c, d);
      ReduceIsScaled(c.c7, 5, j - 1);
      XorDigits(s, r, j - 1);
      Cancel(Digits(r)[j - 1], Digits(s)[j - 1]);
    }
  }

  // One symbol of the state machine is one step of long division: what the state
  // held, followed by the new symbol, is (top digit) times g plus the new state.
  lemma {:induction false} StepDivides(c: State, d: Symbol)
    ensures Digits(c) + [d] == Diff(Scaled(GENERATOR, c.c7), [0] + Digits(Step(c, d)))
  {
    forall j | 0 <= j < 9
      ensures (Digits(c) + [d])[j] == Diff(Scaled(GENERATOR, c.c7), [0] + Digits(Step(c, d)))[j]
    {
      StepDividesAt(c, d, j);
    }
  }

  // ---- Existence: what the state machine leaves is a remainder ----

  // The top digits shifted out, one per symbol.
  function Quotient(m: seq<Symbol>): (q: seq<Symbol>)
    ensures |q| == |m|
  {
    if m == [] then []
    else Quotient(m[..|m| - 1]) + [Run(ZERO, m[..|m| - 1]).c7]
  }

  lemma DiffAssoc(p: seq<Symbol>, v: seq<Symbol>, w: seq<Symbol>)
    requires |p| == |v| == |w|
    ensures Diff(Diff(p, v), w) == Diff(p, Diff(v, w))
  {
  }

  lemma PadDiff(v: seq<Symbol>, w: seq<Symbol>, n: nat)
    requires |v| == |w| <= n
    ensures Diff(Pad(v, n), Pad(w, n)) == Pad(Diff(v, w), n)
  {
  }

  lemma PadSnoc(p: seq<Symbol>, w: seq<Symbol>, d: Symbol)
    requires |w| <= |p|
    ensures Plus(p, w) + [d] == Plus(p + [0], w + [d])
  {
    NoChange(d);
  }

  lemma PadZero(w: seq<Symbol>, n: nat)
    requires |w| < n
    ensures Pad([0] + w, n) == Pad(w, n)
  {
  }

  // One step of long division on a polynomial p with remainder w.
  lemma PlusStep(p: seq<Symbol>, w: seq<Symbol>, d: Symbol, g: seq<Symbol>, r: seq<Symbol>)
    requires |p| >= |w| == |r| && |g| == |w| + 1 && w + [d] == Diff(g, [0] + r)
    ensures Plus(p, w) + [d] == Plus(Plus(p + [0], g), r)
  {
    var n := |p| + 1;
    PadSnoc(p, w, d);
    PadDiff(g, [0] + r, n);
    PadZero(r, n);
    DiffAssoc(p + [0], Pad(g, n), Pad(r, n));
  }

  ghost predicate Divided(m: seq<Symbol>, q: seq<Symbol>, c: State) {
    |q| == |m| && ZEROS + m == Plus(Product(q), Digits(c))
  }

  lemma {:induction false} DividedStep(m: seq<Symbol>, q: seq<Symbol>, c: State, d: Symbol)
    requires Divided(m, q, c)
    ensures Divided(m + [d], q + [c.c7], Step(c, d))
  {
    var p, g := Product(q), Scaled(GENERATOR, c.c7);
    StepDivides(c, d);
    PlusStep(p, Digits(c), d, g, Digits(Step(c, d)));
    assert ZEROS + (m + [d]) == (ZEROS + m) + [d];
    assert (q + [c.c7])[..|q|] == q;
    assert Product(q + [c.c7]) == Plus(p + [0], g);
  }

  lemma {:induction false} Divides(m: seq<Symbol>)
    ensures Divided(m, Quotient(m), Run(ZERO, m))
  {
    if m == [] {
      assert Diff(ZEROS, ZEROS) == ZEROS;
    } else {
      var k := |m| - 1;
      Divides(m[..k]);
      DividedStep(m[..k], Quotient(m[..k]), Run(ZERO, m[..k]), m[k]);
      assert m == m[..k] + [m[k]];
    }
  }

  // ---- Uniqueness: a multiple of the generator leaves nothing ----

  lemma {:induction false} RunPad(w: seq<Symbol>, n: nat)
    requires |w| <= n
    ensures Run(ZERO, Pad(w, n)) == Run(ZERO, w)
  {
    var z := seq(n - |w|, _ => 0 as Symbol);
    RunConcat(ZERO, z, w);
    ZerosKeep(ZERO, z);
  }

  lemma {:induction false} RunPlus(p: seq<Symbol>, w: seq<Symbol>)
    requires |w| <= |p|
    ensures Run(ZERO, Plus(p, w)) == Xor(Run(ZERO, p), Run(ZERO, w))
  {
    RunXor(ZERO, ZERO, p, Pad(w, |p|));
    XorSelf(ZERO);
    RunPad(w, |p|);
  }

  lemma {:induction false} GeneratorVanishes(y: Symbol)
    ensures Run(ZERO, Scaled(GENERATOR, y)) == ZERO
  {
    var g := Scaled(GENERATOR, y);
    TimesOneLow(y, 5);
    var c := Run(ZERO, g[..8]);
    RunDigits(g[..8]);
    assert c.c7 == Digits(c)[0] == g[0] == y;
    StepDivides(c, g[8]);
    var r := Digits(Step(c, g[8]));
    assert Digits(c) + [g[8]] == g;
    forall j | 0 <= j < 8
      ensures r[j] == 0
    {
      assert Diff(g, [0] + r)[j + 1] == g[j + 1] ^ r[j] == g[j + 1];
      SymbolZero(g[j + 1] ^ r[j], g[j + 1]);
    }
    DigitsInjective(Step(c, g[8]), ZERO);
  }

  lemma {:induction false} ProductVanishes(q: seq<Symbol>)
    ensures Run(ZERO, Product(q)) == ZERO
  {
    if q == [] {
      ZerosKeep(ZERO, ZEROS);
    } else {
      var k := |q| - 1;
      var p := Product(q[..k]);
      ProductVanishes(q[..k]);
      RunPlus(p + [0], Scaled(GENERATOR, q[k]));
      assert (p + [0])[..|p|] == p;
      StepInjective(ZERO);
      GeneratorVanishes(q[k]);
      XorSelf(ZERO);
    }
  }

  // ---- Main results ----

  lemma {:induction false} RemainderUnique(m: seq<Symbol>, q: seq<Symbol>, r: seq<Symbol>)
    requires |r| == 8 && |q| == |m| && ZEROS + m == Plus(Product(q), r)
    ensures r == Digits(Run(ZERO, m))
  {
    RunPlus(Product(q), r);
    ProductVanishes(q);
    XorCommutes(ZERO, Run(ZERO, r));
    XorNone(Run(ZERO, r));
    RunConcat(ZERO, ZEROS, m);
    ZerosKeep(ZERO, ZEROS);
    RunDigits(r);
  }

  // The state machine started at zero computes exactly the remainder.
  lemma {:induction false} RunIsRemainder(m: seq<Symbol>, r: seq<Symbol>)
    requires |r| == 8
    ensures IsRemainder(m, r) <==> r == Digits(Run(ZERO, m))
  {
    if IsRemainder(m, r) {
      var q :| |q| == |m| && ZEROS + m == Plus(Product(q), r);
      RemainderUnique(m, q, r);
    }
    if r == Digits(Run(ZERO, m)) {
      Divides(m);
    }
  }

  // The polynomial polymod divides: x^n + v(x) - 1 for n values.
  function Codeword(v: seq<Symbol>): seq<Symbol> {
    Plus([1] + v, [1])
  }

  lemma {:induction false} CodewordRun(v: seq<Symbol>)
    ensures Run(ZERO, Codeword(v)) == PolymodOf(v)
  {
    RunPlus([1] + v, [1]);
    RunConcat(ZERO, [1], v);
    StepSmall(ZERO, 1);
    assert Run(ZERO, [1]) == Step(Run(ZERO, []), 1) == ONE;
  }

  lemma {:induction false} PolymodIsRemainder(v: seq<Symbol>, r: seq<Symbol>)
    requires |r| == 8
    ensures IsRemainder(Codeword(v), r) <==> r == Digits(PolymodOf(v))
  {
    CodewordRun(v);
    RunIsRemainder(Codeword(v), r);
  }

  // A word passes exactly when the generator divides its polynomial.
  lemma {:induction false} ValidIsMultiple(v: seq<Symbol>)
    ensures PolymodOf(v) == ZERO <==>
            exists q :: |q| == |v| + 1 && ZEROS + Codeword(v) == Product(q)
  {
    CodewordRun(v);
    if PolymodOf(v) == ZERO {
      Divides(Codeword(v));
      PlusZeros(Product(Quotient(Codeword(v))));
    }
    if q :| |q| == |v| + 1 && ZEROS + Codeword(v) == Product(q) {
      ProductVanishes(q);
      RunConcat(ZERO, ZEROS, Codeword(v));
      ZerosKeep(ZERO, ZEROS);
    }
  }

  lemma PlusZeros(p: seq<Symbol>)
    requires |p| >= 8
    ensures Plus(p, ZEROS) == p
  {
  }
}
