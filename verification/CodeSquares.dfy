/**
 Squaring modulo the generator. In characteristic two it squares the coefficients
 and doubles the exponents, so the checksum's own step computes it; powers of x
 follow by repeated squaring.
 */
module CodeSquares {
  import opened Checksum
  import opened CodePolynomial
  import opened CodeDistance

  // The square of a field element: it is additive, and the squares of 1, a, a^2, a^3
  // and a^4 are 1, a^2, a^4, a^4 + a and a^4 + a^3 + a.
  function Square(x: Symbol): Symbol {
    (x & 1) ^ ((x & 2) << 1) ^ ((x & 4) << 2) ^ ((x & 8) << 1) ^ ((x & 8) >> 2) ^ (x & 16) ^ ((x & 16) >> 1) ^ ((x & 16) >> 3)
  }

  lemma SquareXor(x: Symbol, y: Symbol)
    ensures Square(x ^ y) == Square(x) ^ Square(y)
  {
  }

  lemma SquareDouble(x: Symbol)
    ensures Square(Double(x)) == Double(Double(Square(x)))
  {
  }

  lemma SquareIsTimes(x: Symbol)
    ensures Square(x) == Times(x, x)
  {
    TimesForm(x, x);
  }

  // The digits of c with a zero between any two.
  function Spread(c: State): (w: seq<Symbol>)
    ensures |w| == 15
  {
    seq(15, i requires 0 <= i < 15 => if i % 2 == 0 then Digits(c)[i / 2] else 0)
  }

  // c squared.
  function Sq(c: State): State {
    Run(ZERO, Spread(MapAll(Square, c)))
  }

  // ---- Squaring is additive, and squares scalars ----

  lemma SpreadAt(c: State, i: nat)
    requires i < 15
    ensures Spread(c)[i] == if i % 2 == 0 then Digits(c)[i / 2] else 0
  {
  }

  lemma SpreadMap(h: Symbol -> Symbol, c: State, i: nat)
    requires h(0) == 0 && i < 15
    ensures Spread(MapAll(h, c))[i] == h(Spread(c)[i])
  {
    SpreadAt(c, i);
    SpreadAt(MapAll(h, c), i);
    MapDigits(h, c, i / 2);
  }

  function Zip(f: (Symbol, Symbol) -> Symbol, v: seq<Symbol>, w: seq<Symbol>): seq<Symbol>
    requires |v| == |w|
  {
    seq(|v|, i requires 0 <= i < |v| => f(v[i], w[i]))
  }

  lemma SpreadZip(f: (Symbol, Symbol) -> Symbol, a: State, b: State)
    requires f(0, 0) == 0
    ensures Spread(Combine(f, a, b)) == Zip(f, Spread(a), Spread(b))
  {
    forall i | 0 <= i < 15
      ensures Spread(Combine(f, a, b))[i] == Zip(f, Spread(a), Spread(b))[i]
    {
      SpreadAt(a, i);
      SpreadAt(b, i);
      SpreadAt(Combine(f, a, b), i);
      CombineDigits(f, a, b, i / 2);
    }
  }

  lemma DiffIsZip(v: seq<Symbol>, w: seq<Symbol>)
    requires |v| == |w|
    ensures Diff(v, w) == Zip(XOR, v, w)
  {
  }

  lemma SpreadXor(a: State, b: State)
    ensures Spread(Xor(a, b)) == Diff(Spread(a), Spread(b))
  {
    XorIsCombine(a, b);
    NoChange(0);
    SpreadZip(XOR, a, b);
    DiffIsZip(Spread(a), Spread(b));
  }

  lemma SquareAllXor(a: State, b: State)
    ensures MapAll(Square, Xor(a, b)) == Xor(MapAll(Square, a), MapAll(Square, b))
  {
    forall x, y
      ensures Square(XOR(x, y)) == XOR(Square(x), Square(y))
    {
      SquareXor(x, y);
    }
    MapCombine(Square, XOR, a, b);
    XorIsCombine(a, b);
    XorIsCombine(MapAll(Square, a), MapAll(Square, b));
  }

  lemma {:induction false} SqXor(a: State, b: State)
    ensures Sq(Xor(a, b)) == Xor(Sq(a), Sq(b))
  {
    SquareAllXor(a, b);
    SpreadXor(MapAll(Square, a), MapAll(Square, b));
    XorSelf(ZERO);
    RunXor(ZERO, ZERO, Spread(MapAll(Square, a)), Spread(MapAll(Square, b)));
  }

  lemma {:induction false} StepDoubles(c: State, d: Symbol)
    ensures Step(DoubleAll(c), Double(d)) == DoubleAll(Step(c, d))
  {
    StepAddsConst(c, d);
    StepAddsConst(DoubleAll(c), Double(d));
    StepDouble(c);
    DoubleAllXor(Step(c, 0), Const(d));
    assert DoubleAll(Const(d)) == Const(Double(d));
  }

  function DoubleWord(w: seq<Symbol>): (r: seq<Symbol>)
    ensures |r| == |w|
  {
    seq(|w|, i requires 0 <= i < |w| => Double(w[i]))
  }

  lemma {:induction false} RunDoubles(w: seq<Symbol>)
    ensures Run(ZERO, DoubleWord(w)) == DoubleAll(Run(ZERO, w))
  {
    if w != [] {
      var k := |w| - 1;
      RunDoubles(w[..k]);
      assert DoubleWord(w)[..k] == DoubleWord(w[..k]);
      StepDoubles(Run(ZERO, w[..k]), w[k]);
    }
  }

  lemma SquareDoubleAll(c: State)
    ensures MapAll(Square, DoubleAll(c)) == DoubleAll(DoubleAll(MapAll(Square, c)))
  {
    SquareDouble(c.c7);
    SquareDouble(c.c6);
    SquareDouble(c.c5);
    SquareDouble(c.c4);
    SquareDouble(c.c3);
    SquareDouble(c.c2);
    SquareDouble(c.c1);
    SquareDouble(c.c0);
  }

  lemma SpreadDouble(s: State)
    ensures Spread(DoubleAll(s)) == DoubleWord(Spread(s))
  {
    forall i | 0 <= i < 15
      ensures Spread(DoubleAll(s))[i] == DoubleWord(Spread(s))[i]
    {
      SpreadMap(Double, s, i);
    }
  }

  lemma {:induction false} SqDouble(c: State)
    ensures Sq(DoubleAll(c)) == DoubleAll(DoubleAll(Sq(c)))
  {
    var s := MapAll(Square, c);
    SquareDoubleAll(c);
    SpreadDouble(s);
    SpreadDouble(DoubleAll(s));
    RunDoubles(Spread(s));
    RunDoubles(DoubleWord(Spread(s)));
  }

  // ---- Squaring after a step is two steps after squaring ----

  lemma {:induction false} SqShift(c: State)
    ensures Step(Step(Sq(c), 0), 0) == Xor(Advance(Const(Square(c.c7)), 16), Sq(Shifted(c, 0)))
  {
    var s := MapAll(Square, c);
    RunTwo(Spread(s), 0, 0);
    SpreadShift(s);
    assert MapAll(Square, Shifted(c, 0)) == Shifted(s, 0);
    RunSplit(s.c7, Spread(Shifted(s, 0)));
  }

  lemma {:induction false} RunTwo(w: seq<Symbol>, x: Symbol, y: Symbol)
    ensures Run(ZERO, w + [x] + [y]) == Step(Step(Run(ZERO, w), x), y)
  {
    assert (w + [x] + [y])[..|w| + 1] == w + [x];
    assert (w + [x])[..|w|] == w;
  }

  lemma SpreadShift(s: State)
    ensures Spread(s) + [0] + [0] == [s.c7] + [0] + Spread(Shifted(s, 0))
  {
    forall i | 0 <= i < 17
      ensures (Spread(s) + [0] + [0])[i] == ([s.c7] + [0] + Spread(Shifted(s, 0)))[i]
    {
      SpreadShiftAt(s, i);
    }
  }

  lemma SpreadShiftAt(s: State, i: nat)
    requires i < 17
    ensures (Spread(s) + [0] + [0])[i] == ([s.c7] + [0] + Spread(Shifted(s, 0)))[i]
  {
    ShiftedDigits(s, 0);
    if i < 15 {
      SpreadAt(s, i);
    }
    if i >= 2 {
      SpreadAt(Shifted(s, 0), i - 2);
      assert i % 2 == 0 ==> (i - 2) / 2 == i / 2 - 1;
    }
  }

  // The first symbol of a word on its own, and the rest after a zero.
  lemma {:induction false} RunSplit(x: Symbol, w: seq<Symbol>)
    ensures Run(ZERO, [x] + [0] + w) == Xor(Advance(Const(x), |w| + 1), Run(ZERO, w))
  {
    var n := |w| + 2;
    var z := seq(|w| + 1, _ => 0 as Symbol);
    FirstAndRest(x, w);
    XorSelf(ZERO);
    RunXor(ZERO, ZERO, [x] + z, Pad(w, n));
    RunPad(w, n);
    RunConcat(ZERO, [x], z);
    StepSmall(ZERO, x);
    assert [x][..0] == [];
    assert Run(ZERO, [x]) == Const(x);
  }

  lemma FirstAndRest(x: Symbol, w: seq<Symbol>)
    ensures [x] + [0] + w == Diff([x] + seq(|w| + 1, _ => 0 as Symbol), Pad(w, |w| + 2))
  {
    var rhs := Diff([x] + seq(|w| + 1, _ => 0 as Symbol), Pad(w, |w| + 2));
    NoChange(x);
    NoChange(0);
    forall i | 0 <= i < |w|
      ensures rhs[i + 2] == w[i]
    {
      NoChange(w[i]);
    }
    forall i | 0 <= i < |w| + 2
      ensures ([x] + [0] + w)[i] == rhs[i]
    {
      if i >= 2 {
        assert rhs[(i - 2) + 2] == w[i - 2];
      }
    }
  }

  ghost predicate FeedbackSquares(t: Symbol) {
    Sq(Feedback(t)) == Advance(Const(Square(t)), 16)
  }

  lemma {:induction false} FeedbackSquaresXor(x: Symbol, y: Symbol)
    requires FeedbackSquares(x) && FeedbackSquares(y)
    ensures FeedbackSquares(x ^ y)
  {
    FeedbackXor(x, y);
    SqXor(Feedback(x), Feedback(y));
    SquareXor(x, y);
    ConstXor(Square(x), Square(y));
    AdvanceXor(Const(Square(x)), Const(Square(y)), 16);
  }

  lemma ConstXor(x: Symbol, y: Symbol)
    ensures Const(x ^ y) == Xor(Const(x), Const(y))
  {
    NoChange(0);
  }

  lemma {:induction false} FeedbackSquaresDouble(t: Symbol)
    requires FeedbackSquares(t)
    ensures FeedbackSquares(Double(t))
  {
    AllCommute(t);
    SqDouble(Feedback(t));
    SquareDouble(t);
    ConstDouble(Square(t));
    ConstDouble(Double(Square(t)));
    AdvanceDouble(Const(Square(t)), 16);
    AdvanceDouble(DoubleAll(Const(Square(t))), 16);
  }

  lemma ConstDouble(y: Symbol)
    ensures DoubleAll(Const(y)) == Const(Double(y))
  {
  }

  // The square of x^8 is x^16, which settles every scalar multiple of x^8.
  lemma {:induction false} AllFeedbackSquares(t: Symbol)
    ensures FeedbackSquares(t)
  {
    FeedbackSquaresOne();
    FeedbackSquaresDouble(1);
    FeedbackSquaresDouble(2);
    FeedbackSquaresDouble(4);
    FeedbackSquaresDouble(8);
    var b0, b1, b2, b3, b4 := t & 1, t & 2, t & 4, t & 8, t & 16;
    assert FeedbackSquares(0) by {
      FeedbackSquaresXor(1, 1);
    }
    SplitBits(t);
    FeedbackSquaresXor(b0, b1);
    FeedbackSquaresXor(b0 ^ b1, b2);
    FeedbackSquaresXor(b0 ^ b1 ^ b2, b3);
    FeedbackSquaresXor(b0 ^ b1 ^ b2 ^ b3, b4);
  }

  lemma {:induction false} SqStep(c: State)
    ensures Sq(Step(c, 0)) == Step(Step(Sq(c), 0), 0)
  {
    StepSplit(c, 0);
    SqXor(Shifted(c, 0), Feedback(c.c7));
    AllFeedbackSquares(c.c7);
    SqShift(c);
    XorCommutes(Sq(Shifted(c, 0)), Sq(Feedback(c.c7)));
  }

  // (x^n)^2 is x^(2n).
  lemma {:induction false} SqAdvance(n: nat)
    ensures Sq(Advance(ONE, n)) == Advance(ONE, 2 * n)
  {
    if n == 0 {
      AdvanceNext(ONE, 0);
      SqOne();
    } else {
      SqAdvance(n - 1);
      AdvanceNext(ONE, n - 1);
      AdvanceNext(ONE, 2 * n - 2);
      AdvanceNext(ONE, 2 * n - 1);
      SqStep(Advance(ONE, n - 1));
    }
  }

  // ---- Squaring as single steps ----

  function Two(h: State, y: Symbol): State {
    Step(Step(h, 0), y)
  }

  lemma {:induction false} TwoMore(w: seq<Symbol>, n: nat, h: State, y: Symbol)
    requires n + 2 <= |w| && Run(ZERO, w[..n]) == h && w[n] == 0 && w[n + 1] == y
    ensures Run(ZERO, w[..n + 2]) == Two(h, y)
  {
    assert w[..n + 2][..n + 1] == w[..n + 1];
    assert w[..n + 1][..n] == w[..n];
  }

  lemma {:induction false} SpreadNext(s: State, n: nat, h: State, y: Symbol)
    requires n < 15 && n % 2 == 1 && Run(ZERO, Spread(s)[..n]) == h && Digits(s)[(n + 1) / 2] == y
    ensures Run(ZERO, Spread(s)[..n + 2]) == Two(h, y)
  {
    SpreadAt(s, n);
    SpreadAt(s, n + 1);
    TwoMore(Spread(s), n, h, y);
  }

  lemma {:induction false} SpreadBy(s: State, h0: State, h1: State, h2: State, h3: State, h4: State, h5: State,
                                    h6: State,
                                    h7: State)
    requires h0 == Const(s.c7) && h1 == Two(h0, s.c6) && h2 == Two(h1, s.c5) && h3 == Two(h2, s.c4)
    requires h4 == Two(h3, s.c3) && h5 == Two(h4, s.c2) && h6 == Two(h5, s.c1) && h7 == Two(h6, s.c0)
    ensures Run(ZERO, Spread(s)) == h7
  {
    SpreadHalf(s, h0, h1, h2, h3);
    SpreadLater(s, h3, h4, h5);
    SpreadNext(s, 11, h5, s.c1);
    SpreadNext(s, 13, h6, s.c0);
    assert Spread(s)[..15] == Spread(s);
  }

  lemma {:induction false} SpreadHalf(s: State, h0: State, h1: State, h2: State, h3: State)
    requires h0 == Const(s.c7) && h1 == Two(h0, s.c6) && h2 == Two(h1, s.c5) && h3 == Two(h2, s.c4)
    ensures Run(ZERO, Spread(s)[..7]) == h3
  {
    SpreadFirst(s);
    SpreadNext(s, 1, h0, s.c6);
    SpreadNext(s, 3, h1, s.c5);
    SpreadNext(s, 5, h2, s.c4);
  }

  lemma {:induction false} SpreadLater(s: State, h3: State, h4: State, h5: State)
    requires Run(ZERO, Spread(s)[..7]) == h3 && h4 == Two(h3, s.c3) && h5 == Two(h4, s.c2)
    ensures Run(ZERO, Spread(s)[..11]) == h5
  {
    SpreadNext(s, 7, h3, s.c3);
    SpreadNext(s, 9, h4, s.c2);
  }

  lemma {:induction false} SpreadFirst(s: State)
    ensures Run(ZERO, Spread(s)[..1]) == Const(s.c7)
  {
    SpreadAt(s, 0);
    assert Spread(s)[..1] == [s.c7];
    StepSmall(ZERO, s.c7);
    assert [s.c7][..0] == [];
  }

  lemma SqOne()
    ensures Sq(ONE) == ONE
  {
    assert MapAll(Square, ONE) == ONE;
    assert Step(ZERO, 0) == ZERO && Step(ZERO, 1) == ONE;
    SpreadBy(ONE, ZERO, ZERO, ZERO, ZERO, ZERO, ZERO, ZERO, ONE);
  }

  // ---- The step without its loop, for evaluation ----

  lemma Feedbacks0()
    ensures Feedback(0) == State(0, 0, 0, 0, 0, 0, 0, 0)
    ensures Feedback(1) == State(19, 3, 25, 11, 25, 3, 19, 1)
    ensures Feedback(2) == State(15, 6, 27, 22, 27, 6, 15, 2)
    ensures Feedback(3) == State(28, 5, 2, 29, 2, 5, 28, 3)
    ensures Feedback(4) == State(30, 12, 31, 5, 31, 12, 30, 4)
    ensures Feedback(5) == State(13, 15, 6, 14, 6, 15, 13, 5)
    ensures Feedback(6) == State(17, 10, 4, 19, 4, 10, 17, 6)
    ensures Feedback(7) == State(2, 9, 29, 24, 29, 9, 2, 7)
  {
  }

  lemma Feedbacks8()
    ensures Feedback(8) == State(21, 24, 23, 10, 23, 24, 21, 8)
    ensures Feedback(9) == State(6, 27, 14, 1, 14, 27, 6, 9)
    ensures Feedback(10) == State(26, 30, 12, 28, 12, 30, 26, 10)
    ensures Feedback(11) == State(9, 29, 21, 23, 21, 29, 9, 11)
    ensures Feedback(12) == State(11, 20, 8, 15, 8, 20, 11, 12)
    ensures Feedback(13) == State(24, 23, 17, 4, 17, 23, 24, 13)
    ensures Feedback(14) == State(4, 18, 19, 25, 19, 18, 4, 14)
    ensures Feedback(15) == State(23, 17, 10, 18, 10, 17, 23, 15)
  {
  }

  lemma Feedbacks16()
    ensures Feedback(16) == State(3, 25, 7, 20, 7, 25, 3, 16)
    ensures Feedback(17) == State(16, 26, 30, 31, 30, 26, 16, 17)
    ensures Feedback(18) == State(12, 31, 28, 2, 28, 31, 12, 18)
    ensures Feedback(19) == State(31, 28, 5, 9, 5, 28, 31, 19)
    ensures Feedback(20) == State(29, 21, 24, 17, 24, 21, 29, 20)
    ensures Feedback(21) == State(14, 22, 1, 26, 1, 22, 14, 21)
    ensures Feedback(22) == State(18, 19, 3, 7, 3, 19, 18, 22)
    ensures Feedback(23) == State(1, 16, 26, 12, 26, 16, 1, 23)
  {
  }

  lemma Feedbacks24()
    ensures Feedback(24) == State(22, 1, 16, 30, 16, 1, 22, 24)
    ensures Feedback(25) == State(5, 2, 9, 21, 9, 2, 5, 25)
    ensures Feedback(26) == State(25, 7, 11, 8, 11, 7, 25, 26)
    ensures Feedback(27) == State(10, 4, 18, 3, 18, 4, 10, 27)
    ensures Feedback(28) == State(8, 13, 15, 27, 15, 13, 8, 28)
    ensures Feedback(29) == State(27, 14, 22, 16, 22, 14, 27, 29)
    ensures Feedback(30) == State(7, 11, 20, 13, 20, 11, 7, 30)
    ensures Feedback(31) == State(20, 8, 13, 6, 13, 8, 20, 31)
  {
    Feedbacks8();
    Feedbacks16();
    FeedbackXor(16, 8);
    FeedbackXor(16, 9);
    FeedbackXor(16, 10);
    FeedbackXor(16, 11);
    FeedbackXor(16, 12);
    FeedbackXor(16, 13);
    FeedbackXor(16, 14);
    FeedbackXor(16, 15);
  }

  // The step of any state with known digits can be read off from these facts.
  lemma {:induction false} Evaluate()
    ensures forall c: State, d: Symbol :: Step(c, d) == Xor(Shifted(c, d), Feedback(c.c7))
    ensures Feedback(0) == State(0, 0, 0, 0, 0, 0, 0, 0)
    ensures Feedback(1) == State(19, 3, 25, 11, 25, 3, 19, 1)
    ensures Feedback(2) == State(15, 6, 27, 22, 27, 6, 15, 2)
    ensures Feedback(3) == State(28, 5, 2, 29, 2, 5, 28, 3)
    ensures Feedback(4) == State(30, 12, 31, 5, 31, 12, 30, 4)
    ensures Feedback(5) == State(13, 15, 6, 14, 6, 15, 13, 5)
    ensures Feedback(6) == State(17, 10, 4, 19, 4, 10, 17, 6)
    ensures Feedback(7) == State(2, 9, 29, 24, 29, 9, 2, 7)
    ensures Feedback(8) == State(21, 24, 23, 10, 23, 24, 21, 8)
    ensures Feedback(9) == State(6, 27, 14, 1, 14, 27, 6, 9)
    ensures Feedback(10) == State(26, 30, 12, 28, 12, 30, 26, 10)
    ensures Feedback(11) == State(9, 29, 21, 23, 21, 29, 9, 11)
    ensures Feedback(12) == State(11, 20, 8, 15, 8, 20, 11, 12)
    ensures Feedback(13) == State(24, 23, 17, 4, 17, 23, 24, 13)
    ensures Feedback(14) == State(4, 18, 19, 25, 19, 18, 4, 14)
    ensures Feedback(15) == State(23, 17, 10, 18, 10, 17, 23, 15)
    ensures Feedback(16) == State(3, 25, 7, 20, 7, 25, 3, 16)
    ensures Feedback(17) == State(16, 26, 30, 31, 30, 26, 16, 17)
    ensures Feedback(18) == State(12, 31, 28, 2, 28, 31, 12, 18)
    ensures Feedback(19) == State(31, 28, 5, 9, 5, 28, 31, 19)
    ensures Feedback(20) == State(29, 21, 24, 17, 24, 21, 29, 20)
    ensures Feedback(21) == State(14, 22, 1, 26, 1, 22, 14, 21)
    ensures Feedback(22) == State(18, 19, 3, 7, 3, 19, 18, 22)
    ensures Feedback(23) == State(1, 16, 26, 12, 26, 16, 1, 23)
    ensures Feedback(24) == State(22, 1, 16, 30, 16, 1, 22, 24)
    ensures Feedback(25) == State(5, 2, 9, 21, 9, 2, 5, 25)
    ensures Feedback(26) == State(25, 7, 11, 8, 11, 7, 25, 26)
    ensures Feedback(27) == State(10, 4, 18, 3, 18, 4, 10, 27)
    ensures Feedback(28) == State(8, 13, 15, 27, 15, 13, 8, 28)
    ensures Feedback(29) == State(27, 14, 22, 16, 22, 14, 27, 29)
    ensures Feedback(30) == State(7, 11, 20, 13, 20, 11, 7, 30)
    ensures Feedback(31) == State(20, 8, 13, 6, 13, 8, 20, 31)
  {
    forall c: State, d: Symbol
      ensures Step(c, d) == Xor(Shifted(c, d), Feedback(c.c7))
    {
      StepSplit(c, d);
    }
    Feedbacks0();
    Feedbacks8();
    Feedbacks16();
    Feedbacks24();
  }

  // ---- Powers of x ----

  lemma {:induction false} EightSteps(n: nat, s0: State, s1: State, s2: State, s3: State, s4: State, s5: State,
                                      s6: State,
                                      s7: State, s8: State)
    requires Advance(ONE, n) == s0 && Step(s0, 0) == s1 && Step(s1, 0) == s2 && Step(s2, 0) == s3 && Step(s3, 0) == s4
    requires Step(s4, 0) == s5 && Step(s5, 0) == s6 && Step(s6, 0) == s7 && Step(s7, 0) == s8
    ensures Advance(ONE, n + 8) == s8
  {
    AdvanceNext(ONE, n);
    AdvanceNext(ONE, n + 1);
    AdvanceNext(ONE, n + 2);
    AdvanceNext(ONE, n + 3);
    AdvanceNext(ONE, n + 4);
    AdvanceNext(ONE, n + 5);
    AdvanceNext(ONE, n + 6);
    AdvanceNext(ONE, n + 7);
  }

  const X8: State := State(19, 3, 25, 11, 25, 3, 19, 1)
  const X16: State := State(30, 23, 19, 7, 18, 3, 6, 31)
  const X32: State := State(18, 11, 3, 23, 23, 18, 16, 15)
  const X64: State := State(25, 10, 27, 2, 7, 17, 5, 10)
  const X128: State := State(23, 28, 30, 31, 15, 6, 12, 3)
  const X256: State := State(27, 12, 10, 9, 12, 27, 31, 13)
  const X512: State := State(6, 5, 19, 24, 17, 31, 23, 26)
  const X1024: State := State(1, 19, 3, 25, 11, 25, 3, 19)
  const X24: State := State(16, 14, 5, 23, 11, 29, 25, 13)
  const X25: State := State(13, 28, 16, 31, 26, 0, 14, 16)
  const X50: State := State(27, 6, 16, 21, 17, 31, 23, 5)
  const X51: State := State(12, 20, 7, 18, 13, 19, 15, 27)
  const X102: State := State(1, 19, 2, 25, 22, 17, 26, 23)
  const X204: State := State(30, 4, 16, 9, 16, 20, 30, 16)
  const X205: State := State(3, 27, 29, 29, 0, 21, 23, 30)

  lemma {:induction false} Power8()
    ensures Advance(ONE, 8) == X8
  {
    AdvanceNext(ONE, 0);
    assert Step(ONE, 0) == State(0, 0, 0, 0, 0, 0, 1, 0);
    assert Step(State(0, 0, 0, 0, 0, 0, 1, 0), 0) == State(0, 0, 0, 0, 0, 1, 0, 0);
    assert Step(State(0, 0, 0, 0, 0, 1, 0, 0), 0) == State(0, 0, 0, 0, 1, 0, 0, 0);
    assert Step(State(0, 0, 0, 0, 1, 0, 0, 0), 0) == State(0, 0, 0, 1, 0, 0, 0, 0);
    assert Step(State(0, 0, 0, 1, 0, 0, 0, 0), 0) == State(0, 0, 1, 0, 0, 0, 0, 0);
    assert Step(State(0, 0, 1, 0, 0, 0, 0, 0), 0) == State(0, 1, 0, 0, 0, 0, 0, 0);
    assert Step(State(0, 1, 0, 0, 0, 0, 0, 0), 0) == State(1, 0, 0, 0, 0, 0, 0, 0);
    assert Step(State(1, 0, 0, 0, 0, 0, 0, 0), 0) == X8;
    EightSteps(0, ONE,
      State(0, 0, 0, 0, 0, 0, 1, 0),
      State(0, 0, 0, 0, 0, 1, 0, 0),
      State(0, 0, 0, 0, 1, 0, 0, 0),
      State(0, 0, 0, 1, 0, 0, 0, 0),
      State(0, 0, 1, 0, 0, 0, 0, 0),
      State(0, 1, 0, 0, 0, 0, 0, 0),
      State(1, 0, 0, 0, 0, 0, 0, 0),
      X8);
  }

  lemma {:induction false} Power16()
    ensures Advance(ONE, 16) == X16
  {
    Power8();
    assert Step(X8, 0) == State(28, 5, 14, 16, 6, 15, 30, 19);
    assert Step(State(28, 5, 14, 16, 6, 15, 30, 19), 0) == State(13, 3, 31, 29, 0, 19, 27, 28);
    assert Step(State(13, 3, 31, 29, 0, 19, 27, 28), 0) == State(27, 8, 12, 4, 2, 12, 4, 13);
    assert Step(State(27, 8, 12, 4, 2, 12, 4, 13), 0) == State(2, 8, 22, 1, 30, 0, 7, 27);
    assert Step(State(2, 8, 22, 1, 30, 0, 7, 27), 0) == State(7, 16, 26, 8, 27, 1, 20, 2);
    assert Step(State(7, 16, 26, 8, 27, 1, 20, 2), 0) == State(18, 19, 21, 3, 28, 29, 0, 7);
    assert Step(State(18, 19, 21, 3, 28, 29, 0, 7), 0) == State(31, 10, 31, 30, 1, 31, 11, 18);
    assert Step(State(31, 10, 31, 30, 1, 31, 11, 18), 0) == X16;
    EightSteps(8, X8,
      State(28, 5, 14, 16, 6, 15, 30, 19),
      State(13, 3, 31, 29, 0, 19, 27, 28),
      State(27, 8, 12, 4, 2, 12, 4, 13),
      State(2, 8, 22, 1, 30, 0, 7, 27),
      State(7, 16, 26, 8, 27, 1, 20, 2),
      State(18, 19, 21, 3, 28, 29, 0, 7),
      State(31, 10, 31, 30, 1, 31, 11, 18),
      X16);
  }

  lemma Square8()
    ensures Sq(X8) == X16
  {
    Evaluate();
    assert MapAll(Square, X8) == State(31, 5, 9, 23, 9, 5, 31, 1);
    SpreadBy(State(31, 5, 9, 23, 9, 5, 31, 1),
             State(0, 0, 0, 0, 0, 0, 0, 31),
             State(0, 0, 0, 0, 0, 31, 0, 5),
             State(0, 0, 0, 31, 0, 5, 0, 9),
             State(0, 31, 0, 5, 0, 9, 0, 23),
             State(20, 13, 13, 15, 13, 31, 20, 22),
             State(27, 14, 27, 19, 6, 18, 23, 21),
             State(1, 13, 26, 5, 12, 19, 5, 27),
             X16);
  }

  lemma {:induction false} FeedbackSquaresOne()
    ensures FeedbackSquares(1)
  {
    Power16();
    Square8();
    Feedbacks0();
    AdvanceNext(ONE, 0);
    assert Const(Square(1)) == ONE;
  }

  lemma Square16()
    ensures Sq(X16) == X32
  {
    Evaluate();
    assert MapAll(Square, X16) == State(28, 15, 31, 21, 30, 5, 20, 29);
    SpreadBy(State(28, 15, 31, 21, 30, 5, 20, 29),
             State(0, 0, 0, 0, 0, 0, 0, 28),
             State(0, 0, 0, 0, 0, 28, 0, 15),
             State(0, 0, 0, 28, 0, 15, 0, 31),
             State(0, 28, 0, 15, 0, 31, 0, 21),
             State(8, 2, 15, 4, 15, 24, 8, 2),
             State(22, 3, 31, 3, 10, 7, 9, 18),
             State(28, 26, 19, 27, 4, 26, 6, 5),
             X32);
  }

  lemma {:induction false} Power32()
    ensures Advance(ONE, 32) == X32
  {
    Power16();
    Square16();
    SqAdvance(16);
  }

  lemma Square32()
    ensures Sq(X32) == X64
  {
    Evaluate();
    assert MapAll(Square, X32) == State(30, 23, 5, 15, 15, 30, 26, 7);
    SpreadBy(State(30, 23, 5, 15, 15, 30, 26, 7),
             State(0, 0, 0, 0, 0, 0, 0, 30),
             State(0, 0, 0, 0, 0, 30, 0, 23),
             State(0, 0, 0, 30, 0, 23, 0, 5),
             State(0, 30, 0, 23, 0, 5, 0, 15),
             State(7, 28, 20, 8, 20, 4, 7, 17),
             State(26, 30, 24, 20, 26, 24, 0, 0),
             State(29, 22, 15, 11, 26, 16, 24, 29),
             X64);
  }

  lemma {:induction false} Power64()
    ensures Advance(ONE, 64) == X64
  {
    Power32();
    Square32();
    SqAdvance(32);
  }

  lemma Square64()
    ensures Sq(X64) == X128
  {
    Evaluate();
    assert MapAll(Square, X64) == State(9, 22, 13, 4, 21, 27, 17, 22);
    SpreadBy(State(9, 22, 13, 4, 21, 27, 17, 22),
             State(0, 0, 0, 0, 0, 0, 0, 9),
             State(0, 0, 0, 0, 0, 9, 0, 22),
             State(0, 0, 0, 9, 0, 22, 0, 13),
             State(0, 9, 0, 22, 0, 13, 0, 4),
             State(6, 13, 14, 12, 14, 31, 6, 28),
             State(12, 5, 18, 0, 3, 0, 14, 7),
             State(2, 26, 31, 17, 9, 30, 8, 31),
             X128);
  }

  lemma {:induction false} Power128()
    ensures Advance(ONE, 128) == X128
  {
    Power64();
    Square64();
    SqAdvance(64);
  }

  lemma Square128()
    ensures Sq(X128) == X256
  {
    Evaluate();
    assert MapAll(Square, X128) == State(15, 24, 28, 29, 7, 20, 2, 5);
    SpreadBy(State(15, 24, 28, 29, 7, 20, 2, 5),
             State(0, 0, 0, 0, 0, 0, 0, 15),
             State(0, 0, 0, 0, 0, 15, 0, 24),
             State(0, 0, 0, 15, 0, 24, 0, 28),
             State(0, 15, 0, 24, 0, 28, 0, 29),
             State(23, 9, 10, 14, 10, 12, 23, 8),
             State(15, 12, 17, 28, 16, 17, 2, 28),
             State(10, 18, 16, 24, 1, 15, 5, 25),
             X256);
  }

  lemma {:induction false} Power256()
    ensures Advance(ONE, 256) == X256
  {
    Power128();
    Square128();
    SqAdvance(128);
  }

  lemma Square256()
    ensures Sq(X256) == X512
  {
    Evaluate();
    assert MapAll(Square, X256) == State(13, 2, 22, 19, 2, 13, 29, 3);
    SpreadBy(State(13, 2, 22, 19, 2, 13, 29, 3),
             State(0, 0, 0, 0, 0, 0, 0, 13),
             State(0, 0, 0, 0, 0, 13, 0, 2),
             State(0, 0, 0, 13, 0, 2, 0, 22),
             State(0, 13, 0, 2, 0, 22, 0, 19),
             State(24, 21, 17, 18, 17, 4, 24, 15),
             State(12, 7, 13, 9, 27, 28, 4, 14),
             State(18, 21, 28, 27, 24, 17, 7, 17),
             X512);
  }

  lemma {:induction false} Power512()
    ensures Advance(ONE, 512) == X512
  {
    Power256();
    Square256();
    SqAdvance(256);
  }

  lemma Square512()
    ensures Sq(X512) == X1024
  {
    Evaluate();
    assert MapAll(Square, X512) == State(20, 17, 31, 8, 27, 29, 15, 12);
    SpreadBy(State(20, 17, 31, 8, 27, 29, 15, 12),
             State(0, 0, 0, 0, 0, 0, 0, 20),
             State(0, 0, 0, 0, 0, 20, 0, 17),
             State(0, 0, 0, 20, 0, 17, 0, 31),
             State(0, 20, 0, 17, 0, 31, 0, 8),
             State(29, 4, 24, 14, 24, 29, 29, 15),
             State(2, 16, 5, 13, 30, 28, 9, 2),
             State(23, 30, 5, 1, 2, 5, 22, 16),
             X1024);
  }

  lemma {:induction false} Power1024()
    ensures Advance(ONE, 1024) == X1024
  {
    Power512();
    Square512();
    SqAdvance(512);
  }

  lemma {:induction false} Power1025()
    ensures Advance(ONE, 1025) == ONE
  {
    Power1024();
    AdvanceNext(ONE, 1024);
    assert Step(X1024, 0) == ONE;
  }

  lemma {:induction false} Power24()
    ensures Advance(ONE, 24) == X24
  {
    Power16();
    assert Step(X16, 0) == State(16, 24, 19, 31, 23, 13, 24, 30);
    assert Step(State(16, 24, 19, 31, 23, 13, 24, 30), 0) == State(27, 10, 24, 3, 10, 1, 29, 16);
    assert Step(State(27, 10, 24, 3, 10, 1, 29, 16), 0) == State(0, 28, 17, 9, 19, 25, 26, 27);
    assert Step(State(0, 28, 17, 9, 19, 25, 26, 27), 0) == State(28, 17, 9, 19, 25, 26, 27, 0);
    assert Step(State(28, 17, 9, 19, 25, 26, 27, 0), 0) == State(25, 4, 28, 2, 21, 22, 8, 28);
    assert Step(State(25, 4, 28, 2, 21, 22, 8, 28), 0) == State(1, 30, 11, 0, 31, 10, 25, 25);
    assert Step(State(1, 30, 11, 0, 31, 10, 25, 25), 0) == State(13, 8, 25, 20, 19, 26, 10, 1);
    assert Step(State(13, 8, 25, 20, 19, 26, 10, 1), 0) == X24;
    EightSteps(16, X16,
      State(16, 24, 19, 31, 23, 13, 24, 30),
      State(27, 10, 24, 3, 10, 1, 29, 16),
      State(0, 28, 17, 9, 19, 25, 26, 27),
      State(28, 17, 9, 19, 25, 26, 27, 0),
      State(25, 4, 28, 2, 21, 22, 8, 28),
      State(1, 30, 11, 0, 31, 10, 25, 25),
      State(13, 8, 25, 20, 19, 26, 10, 1),
      X24);
  }

  lemma {:induction false} Power25()
    ensures Advance(ONE, 25) == X25
  {
    Power24();
    AdvanceNext(ONE, 24);
    assert Step(X24, 0) == X25;
  }

  lemma Square25()
    ensures Sq(X25) == X50
  {
    Evaluate();
    assert MapAll(Square, X25) == State(3, 24, 26, 29, 12, 0, 6, 26);
    SpreadBy(State(3, 24, 26, 29, 12, 0, 6, 26),
             State(0, 0, 0, 0, 0, 0, 0, 3),
             State(0, 0, 0, 0, 0, 3, 0, 24),
             State(0, 0, 0, 3, 0, 24, 0, 26),
             State(0, 3, 0, 24, 0, 26, 0, 29),
             State(28, 29, 2, 7, 2, 24, 28, 15),
             State(1, 30, 24, 13, 16, 17, 18, 21),
             State(3, 3, 10, 12, 0, 17, 25, 11),
             X50);
  }

  lemma {:induction false} Power50()
    ensures Advance(ONE, 50) == X50
  {
    Power25();
    Square25();
    SqAdvance(25);
  }

  lemma {:induction false} Power51()
    ensures Advance(ONE, 51) == X51
  {
    Power50();
    AdvanceNext(ONE, 50);
    assert Step(X50, 0) == X51;
  }

  lemma Square51()
    ensures Sq(X51) == X102
  {
    Evaluate();
    assert MapAll(Square, X51) == State(2, 10, 21, 30, 3, 31, 7, 13);
    SpreadBy(State(2, 10, 21, 30, 3, 31, 7, 13),
             State(0, 0, 0, 0, 0, 0, 0, 2),
             State(0, 0, 0, 0, 0, 2, 0, 10),
             State(0, 0, 0, 2, 0, 10, 0, 21),
             State(0, 2, 0, 10, 0, 21, 0, 30),
             State(15, 12, 27, 3, 27, 24, 15, 1),
             State(0, 13, 27, 17, 12, 18, 5, 4),
             State(3, 6, 29, 22, 20, 19, 24, 10),
             X102);
  }

  lemma {:induction false} Power102()
    ensures Advance(ONE, 102) == X102
  {
    Power51();
    Square51();
    SqAdvance(51);
  }

  lemma Square102()
    ensures Sq(X102) == X204
  {
    Evaluate();
    assert MapAll(Square, X102) == State(1, 31, 4, 9, 14, 27, 12, 15);
    SpreadBy(State(1, 31, 4, 9, 14, 27, 12, 15),
             State(0, 0, 0, 0, 0, 0, 0, 1),
             State(0, 0, 0, 0, 0, 1, 0, 31),
             State(0, 0, 0, 1, 0, 31, 0, 4),
             State(0, 1, 0, 31, 0, 4, 0, 9),
             State(19, 28, 25, 15, 25, 10, 19, 15),
             State(25, 15, 18, 18, 13, 21, 15, 24),
             State(10, 5, 20, 0, 1, 3, 3, 6),
             X204);
  }

  lemma {:induction false} Power204()
    ensures Advance(ONE, 204) == X204
  {
    Power102();
    Square102();
    SqAdvance(102);
  }

  lemma {:induction false} Power205()
    ensures Advance(ONE, 205) == X205
  {
    Power204();
    AdvanceNext(ONE, 204);
    assert Step(X204, 0) == X205;
  }
}
