/**
 How far apart two errors must be before they can cancel: x has order 1025 modulo
 the generator, up to scalars too, so two changed symbols are detected at every
 distance that is not a multiple of 1025.
 */
module CodeDistance {
  import opened Checksum
  import opened CodePolynomial

  // ---- Multiplication by x and by scalars ----

  // c times x^n: n zero symbols.
  function Advance(c: State, n: nat): State {
    Run(c, seq(n, _ => 0 as Symbol))
  }

  lemma {:induction false} AdvanceNext(c: State, n: nat)
    ensures Advance(c, 0) == c && Advance(c, n + 1) == Step(Advance(c, n), 0)
  {
    assert seq(n + 1, _ => 0 as Symbol)[..n] == seq(n, _ => 0 as Symbol);
  }

  lemma {:induction false} AdvanceAdd(c: State, m: nat, n: nat)
    ensures Advance(c, m + n) == Advance(Advance(c, m), n)
  {
    assert seq(m + n, _ => 0 as Symbol) == seq(m, _ => 0 as Symbol) + seq(n, _ => 0 as Symbol);
    RunConcat(c, seq(m, _ => 0 as Symbol), seq(n, _ => 0 as Symbol));
  }

  lemma {:induction false} AdvanceRun(c: State, z: seq<Symbol>)
    requires AllZero(z)
    ensures Run(c, z) == Advance(c, |z|)
  {
    assert z == seq(|z|, _ => 0 as Symbol);
  }

  lemma {:induction false} AdvanceXor(a: State, b: State, n: nat)
    ensures Advance(Xor(a, b), n) == Xor(Advance(a, n), Advance(b, n))
  {
    var z := seq(n, _ => 0 as Symbol);
    NoChange(0);
    assert Diff(z, z) == z;
    RunXor(a, b, z, z);
  }

  lemma {:induction false} AdvanceZero(c: State, n: nat)
    ensures Advance(c, n) == ZERO <==> c == ZERO
  {
    ZerosKeep(c, seq(n, _ => 0 as Symbol));
  }

  function MapAll(h: Symbol -> Symbol, c: State): State {
    State(h(c.c7), h(c.c6), h(c.c5), h(c.c4), h(c.c3), h(c.c2), h(c.c1), h(c.c0))
  }

  // c times a.
  function DoubleAll(c: State): State {
    MapAll(Double, c)
  }

  lemma DoubleXor(x: Symbol, y: Symbol)
    ensures Double(x ^ y) == Double(x) ^ Double(y)
  {
  }

  lemma MapCombine(h: Symbol -> Symbol, f: (Symbol, Symbol) -> Symbol, a: State, b: State)
    requires forall x, y :: h(f(x, y)) == f(h(x), h(y))
    ensures MapAll(h, Combine(f, a, b)) == Combine(f, MapAll(h, a), MapAll(h, b))
  {
  }

  lemma DoubleAllXor(a: State, b: State)
    ensures DoubleAll(Xor(a, b)) == Xor(DoubleAll(a), DoubleAll(b))
  {
    forall x, y
      ensures Double(XOR(x, y)) == XOR(Double(x), Double(y))
    {
      DoubleXor(x, y);
    }
    MapCombine(Double, XOR, a, b);
    XorIsCombine(a, b);
    XorIsCombine(DoubleAll(a), DoubleAll(b));
  }

  // The multiple of the lower generator coefficients that a step adds.
  function Feedback(t: Symbol): State {
    Reduce(ZERO, t, 5)
  }

  lemma {:induction false} FeedbackXor(x: Symbol, y: Symbol)
    ensures Feedback(x ^ y) == Xor(Feedback(x), Feedback(y))
  {
    XorNone(ZERO);
    ReduceXor(ZERO, ZERO, x, y, 5);
  }

  ghost predicate Commutes(t: Symbol) {
    Feedback(Double(t)) == DoubleAll(Feedback(t))
  }

  lemma CommutesBasis()
    ensures Commutes(0) && Commutes(1) && Commutes(2) && Commutes(4) && Commutes(8) && Commutes(16)
  {
  }

  lemma CommutesXor(x: Symbol, y: Symbol)
    requires Commutes(x) && Commutes(y)
    ensures Commutes(x ^ y)
  {
    DoubleXor(x, y);
    FeedbackXor(x, y);
    FeedbackXor(Double(x), Double(y));
    DoubleAllXor(Feedback(x), Feedback(y));
  }

  lemma AllCommute(t: Symbol)
    ensures Commutes(t)
  {
    var b0, b1, b2, b3, b4 := t & 1, t & 2, t & 4, t & 8, t & 16;
    CommutesBasis();
    SplitBits(t);
    CommutesXor(b0, b1);
    CommutesXor(b0 ^ b1, b2);
    CommutesXor(b0 ^ b1 ^ b2, b3);
    CommutesXor(b0 ^ b1 ^ b2 ^ b3, b4);
  }

  lemma SplitBits(t: Symbol)
    ensures t == (t & 1) ^ (t & 2) ^ (t & 4) ^ (t & 8) ^ (t & 16)
    ensures (t & 1 == 0 || t & 1 == 1) && (t & 2 == 0 || t & 2 == 2) && (t & 4 == 0 || t & 4 == 4)
    ensures (t & 8 == 0 || t & 8 == 8) && (t & 16 == 0 || t & 16 == 16)
  {
  }

  lemma {:induction false} StepDouble(c: State)
    ensures Step(DoubleAll(c), 0) == DoubleAll(Step(c, 0))
  {
    StepSplit(c, 0);
    StepSplit(DoubleAll(c), 0);
    AllCommute(c.c7);
    DoubleAllXor(Shifted(c, 0), Feedback(c.c7));
    assert DoubleAll(Shifted(c, 0)) == Shifted(DoubleAll(c), 0);
  }

  lemma {:induction false} AdvanceDouble(c: State, n: nat)
    ensures Advance(DoubleAll(c), n) == DoubleAll(Advance(c, n))
  {
    AdvanceNext(c, if n > 0 then n - 1 else 0);
    AdvanceNext(DoubleAll(c), if n > 0 then n - 1 else 0);
    if n > 0 {
      AdvanceDouble(c, n - 1);
      StepDouble(Advance(c, n - 1));
    }
  }

  // c times a^i
  function DoubledAll(c: State, i: nat): State {
    if i == 0 then c else DoubleAll(DoubledAll(c, i - 1))
  }

  lemma {:induction false} AdvanceDoubled(c: State, i: nat, n: nat)
    ensures Advance(DoubledAll(c, i), n) == DoubledAll(Advance(c, n), i)
  {
    if i > 0 {
      AdvanceDoubled(c, i - 1, n);
      AdvanceDouble(DoubledAll(c, i - 1), n);
    }
  }

  // c times the scalar held in the low i bits of y.
  function ScaleLow(c: State, y: Symbol, i: nat): State
    requires i <= 5
  {
    if i == 0 then ZERO
    else if Selected(y, i - 1) then Xor(ScaleLow(c, y, i - 1), DoubledAll(c, i - 1))
    else ScaleLow(c, y, i - 1)
  }

  function Scale(c: State, y: Symbol): State {
    ScaleLow(c, y, 5)
  }

  lemma {:induction false} AdvanceScaleLow(c: State, y: Symbol, i: nat, n: nat)
    requires i <= 5
    ensures Advance(ScaleLow(c, y, i), n) == ScaleLow(Advance(c, n), y, i)
  {
    if i == 0 {
      AdvanceZero(ZERO, n);
    } else {
      AdvanceScaleLow(c, y, i - 1, n);
      if Selected(y, i - 1) {
        AdvanceSum(c, ScaleLow(c, y, i - 1), i - 1, n);
      }
    }
  }

  lemma {:induction false} AdvanceSum(c: State, p: State, i: nat, n: nat)
    ensures Advance(Xor(p, DoubledAll(c, i)), n) == Xor(Advance(p, n), DoubledAll(Advance(c, n), i))
  {
    AdvanceDoubled(c, i, n);
    AdvanceXor(p, DoubledAll(c, i), n);
  }

  // ---- Scalars digit by digit ----

  lemma MapDigits(h: Symbol -> Symbol, c: State, k: nat)
    requires k < 8
    ensures Digits(MapAll(h, c))[k] == h(Digits(c)[k])
  {
  }

  lemma {:induction false} DoubledDigits(c: State, i: nat, k: nat)
    requires k < 8
    ensures Digits(DoubledAll(c, i))[k] == Doubled(Digits(c)[k], i)
  {
    if i > 0 {
      DoubledDigits(c, i - 1, k);
      MapDigits(Double, DoubledAll(c, i - 1), k);
    }
  }

  lemma {:induction false} ScaleDigits(c: State, y: Symbol, i: nat, k: nat)
    requires i <= 5 && k < 8
    ensures Digits(ScaleLow(c, y, i))[k] == TimesLow(Digits(c)[k], y, i)
  {
    if i > 0 {
      ScaleDigits(c, y, i - 1, k);
      DoubledDigits(c, i - 1, k);
      XorDigits(ScaleLow(c, y, i - 1), DoubledAll(c, i - 1), k);
    }
  }

  lemma {:induction false} TimesZeroLow(y: Symbol, i: nat)
    requires i <= 5
    ensures TimesLow(0, y, i) == 0
  {
    if i > 0 {
      TimesZeroLow(y, i - 1);
      DoubledZero(i - 1);
    }
  }

  lemma {:induction false} DoubledZero(i: nat)
    ensures Doubled(0, i) == 0
  {
    if i > 0 {
      DoubledZero(i - 1);
    }
  }

  // The polynomial of degree zero.
  function Const(y: Symbol): State {
    State(0, 0, 0, 0, 0, 0, 0, y)
  }

  lemma {:induction false} ScaleOne(y: Symbol)
    ensures Scale(ONE, y) == Const(y)
  {
    forall k | 0 <= k < 8
      ensures Digits(Scale(ONE, y))[k] == Digits(Const(y))[k]
    {
      ScaleDigits(ONE, y, 5, k);
      TimesZeroLow(y, 5);
      TimesOneLow(y, 5);
    }
    DigitsInjective(Scale(ONE, y), Const(y));
  }

  // What times adds for one bit.
  function Part(bit: bool, x: Symbol): Symbol {
    if bit then x else 0
  }

  lemma TimesForm(x: Symbol, y: Symbol)
    ensures Times(x, y) == Part(y & 1 != 0, x) ^ Part(y & 2 != 0, Double(x)) ^ Part(y & 4 != 0, Double(Double(x)))
                           ^ Part(y & 8 != 0, Double(Double(Double(x)))) ^ Part(y & 16 != 0, Double(Double(Double(Double(x)))))
  {
    DoubledTable(x);
    assert TimesLow(x, y, 1) == Part(y & 1 != 0, x);
    assert TimesLow(x, y, 2) == TimesLow(x, y, 1) ^ Part(y & 2 != 0, Double(x));
    assert TimesLow(x, y, 3) == TimesLow(x, y, 2) ^ Part(y & 4 != 0, Double(Double(x)));
    assert TimesLow(x, y, 4) == TimesLow(x, y, 3) ^ Part(y & 8 != 0, Double(Double(Double(x))));
    assert TimesLow(x, y, 5) == TimesLow(x, y, 4) ^ Part(y & 16 != 0, Double(Double(Double(Double(x)))));
  }

  // The 32 elements have no zero divisors.
  lemma NoZeroDivisors(x: Symbol, y: Symbol)
    requires y != 0
    ensures Times(x, y) == 0 <==> x == 0
  {
    TimesForm(x, y);
  }

  lemma {:induction false} StepAddsConst(c: State, d: Symbol)
    ensures Step(c, d) == Xor(Step(c, 0), Const(d))
  {
    XorNone(c);
    NoChange(d);
    StepXor(c, ZERO, 0, d);
    StepSmall(ZERO, d);
  }
}
