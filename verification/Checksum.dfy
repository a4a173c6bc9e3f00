/**
 The CashAddr-style checksum of the wallet's address validator: a 40-bit state
 machine over 5-bit symbols ("Checksum" section of the Bitcoin Cash CashAddr
 specification). Its step is linear over xor and injective, which gives the
 error-detection and completion theorems at every length.
 */
module Checksum {

  // A 5-bit value.
  type Symbol = bv5

  // The 40-bit integer c, as its eight base-32 digits from bits 35..39 down.
  datatype State = State(c7: Symbol, c6: Symbol, c5: Symbol, c4: Symbol, c3: Symbol, c2: Symbol, c1: Symbol, c0: Symbol)

  // The integer a state stands for.
  function ToInt(s: State): nat {
    ((((((((s.c7 as nat) * 32 + s.c6 as nat) * 32 + s.c5 as nat) * 32 + s.c4 as nat) * 32
    + s.c3 as nat) * 32 + s.c2 as nat) * 32 + s.c1 as nat) * 32) + s.c0 as nat
  }

  // Bitwise xor of the integers, digit by digit.
  function Xor(a: State, b: State): State {
    State(a.c7 ^ b.c7, a.c6 ^ b.c6, a.c5 ^ b.c5, a.c4 ^ b.c4, a.c3 ^ b.c3, a.c2 ^ b.c2, a.c1 ^ b.c1, a.c0 ^ b.c0)
  }

  const ZERO: State := State(0, 0, 0, 0, 0, 0, 0, 0)
  const ONE: State := State(0, 0, 0, 0, 0, 0, 0, 1)

  // 0x98f2bc8e61, 0x79b76d99e2, 0xf33e5fb3c4, 0xae2eabe2a8, 0x1e4f43e470.
  function Generator(i: nat): State
    requires i < 5
  {
    match i
    case 0 => State(19, 3, 25, 11, 25, 3, 19, 1)
    case 1 => State(15, 6, 27, 22, 27, 6, 15, 2)
    case 2 => State(30, 12, 31, 5, 31, 12, 30, 4)
    case 3 => State(21, 24, 23, 10, 23, 24, 21, 8)
    case _ => State(3, 25, 7, 20, 7, 25, 3, 16)
  }

  lemma GeneratorConstants()
    ensures ToInt(Generator(0)) == 0x98f2bc8e61 && ToInt(Generator(1)) == 0x79b76d99e2
    ensures ToInt(Generator(2)) == 0xf33e5fb3c4 && ToInt(Generator(3)) == 0xae2eabe2a8
    ensures ToInt(Generator(4)) == 0x1e4f43e470
  {
  }

  // c0 & (1 << i) != 0
  predicate Selected(top: Symbol, i: nat)
    requires i < 5
  {
    match i
    case 0 => top & 1 != 0
    case 1 => top & 2 != 0
    case 2 => top & 4 != 0
    case 3 => top & 8 != 0
    case _ => top & 16 != 0
  }

  // ((c & 0x07_FFFF_FFFF) << 5) ^ d
  function Shifted(c: State, d: Symbol): State {
    State(c.c6, c.c5, c.c4, c.c3, c.c2, c.c1, c.c0, d)
  }

  // The state after xoring in the generators selected by the low i bits of top.
  function Reduce(c: State, top: Symbol, i: nat): State
    requires i <= 5
  {
    if i == 0 then c
    else if Selected(top, i - 1) then Xor(Reduce(c, top, i - 1), Generator(i - 1))
    else Reduce(c, top, i - 1)
  }

  // One symbol.
  function Step(c: State, d: Symbol): State {
    Reduce(Shifted(c, d), c.c7, 5)
  }

  // All symbols in order.
  function Run(c: State, values: seq<Symbol>): State {
    if values == [] then c else Step(Run(c, values[..|values| - 1]), values[|values| - 1])
  }

  function PolymodOf(values: seq<Symbol>): State {
    Xor(Run(ONE, values), ONE)
  }

  method Polymod(values: seq<Symbol>) returns (r: State)
    ensures r == PolymodOf(values)
  {
    var c := ONE;
    for k := 0 to |values|
      invariant c == Run(ONE, values[..k])
    {
      var before, top := c, c.c7;
      c := Shifted(c, values[k]);
      for i := 0 to 5
        invariant c == Reduce(Shifted(before, values[k]), top, i)
      {
        if Selected(top, i) {
          c := Xor(c, Generator(i));
        }
      }
      assert values[..k + 1][..k] == values[..k];
    }
    assert values[..|values|] == values;
    return Xor(c, ONE);
  }

  // ---- Linearity ----

  lemma XorCommutes(p: State, q: State)
    ensures Xor(p, q) == Xor(q, p)
  {
  }

  lemma XorAssoc(p: State, q: State, g: State)
    ensures Xor(p, Xor(q, g)) == Xor(Xor(p, q), g)
  {
  }

  lemma XorSelf(p: State)
    ensures Xor(p, p) == ZERO
  {
  }

  lemma XorNone(p: State)
    ensures Xor(p, ZERO) == p
  {
  }

  lemma XorZero(p: State, q: State)
    ensures Xor(p, q) == ZERO <==> p == q
  {
    XorSelf(p);
    if Xor(p, q) == ZERO {
      XorAssoc(p, q, q);
      XorSelf(q);
      XorNone(p);
      XorNone(q);
      XorCommutes(ZERO, q);
    }
  }

  // A generator on one side, or on both, of a sum.
  lemma XorOne(p: State, q: State, g: State)
    ensures Xor(Xor(p, g), q) == Xor(Xor(p, q), g)
    ensures Xor(p, Xor(q, g)) == Xor(Xor(p, q), g)
    ensures Xor(Xor(p, g), Xor(q, g)) == Xor(p, q)
  {
    XorAssoc(p, g, q);
    XorCommutes(g, q);
    XorAssoc(p, q, g);
    XorAssoc(Xor(p, g), q, g);
    XorAssoc(Xor(p, q), g, g);
    XorSelf(g);
    XorNone(Xor(p, q));
  }

  lemma SelectedXor(x: Symbol, y: Symbol, i: nat)
    requires i < 5
    ensures Selected(x ^ y, i) == (Selected(x, i) != Selected(y, i))
  {
  }

  lemma {:induction false} ReduceXor(c: State, e: State, x: Symbol, y: Symbol, i: nat)
    requires i <= 5
    ensures Reduce(Xor(c, e), x ^ y, i) == Xor(Reduce(c, x, i), Reduce(e, y, i))
  {
    if i > 0 {
      ReduceXor(c, e, x, y, i - 1);
      SelectedXor(x, y, i - 1);
      XorOne(Reduce(c, x, i - 1), Reduce(e, y, i - 1), Generator(i - 1));
    }
  }

  lemma {:induction false} StepXor(a: State, b: State, d: Symbol, e: Symbol)
    ensures Step(Xor(a, b), d ^ e) == Xor(Step(a, d), Step(b, e))
  {
    var s, t := Shifted(a, d), Shifted(b, e);
    assert Shifted(Xor(a, b), d ^ e) == Xor(s, t);
    ReduceXor(s, t, a.c7, b.c7, 5);
  }

  // The symbol-wise difference of two words.
  function Diff(v: seq<Symbol>, w: seq<Symbol>): (e: seq<Symbol>)
    requires |v| == |w|
    ensures |e| == |v|
  {
    seq(|v|, i requires 0 <= i < |v| => v[i] ^ w[i])
  }

  // Running is linear in the start state and the word together.
  lemma {:induction false} RunXor(a: State, b: State, v: seq<Symbol>, w: seq<Symbol>)
    requires |v| == |w|
    ensures Run(Xor(a, b), Diff(v, w)) == Xor(Run(a, v), Run(b, w))
  {
    if |v| > 0 {
      var k := |v| - 1;
      RunXor(a, b, v[..k], w[..k]);
      assert Diff(v, w)[..k] == Diff(v[..k], w[..k]);
      StepXor(Run(a, v[..k]), Run(b, w[..k]), v[k], w[k]);
    }
  }

  lemma {:induction false} RunConcat(c: State, v: seq<Symbol>, w: seq<Symbol>)
    ensures Run(c, v + w) == Run(Run(c, v), w)
  {
    if w == [] {
      assert v + w == v;
    } else {
      var k := |w| - 1;
      RunConcat(c, v, w[..k]);
      assert (v + w)[..|v + w| - 1] == v + w[..k];
    }
  }

  // ---- Injectivity ----

  lemma {:induction false} ReduceNone(c: State, i: nat)
    requires i <= 5
    ensures Reduce(c, 0, i) == c
  {
    if i > 0 {
      ReduceNone(c, i - 1);
    }
  }

  // The low i bits.
  function LowBits(x: Symbol, i: nat): Symbol
    requires i <= 5
  {
    match i
    case 0 => 0
    case 1 => x & 1
    case 2 => x & 3
    case 3 => x & 7
    case 4 => x & 15
    case _ => x
  }

  // The low digits of the generators are 1, 2, 4, 8 and 16: what is shifted out
  // on top reappears at the bottom.
  lemma {:induction false} LowDigit(c: State, top: Symbol, i: nat)
    requires i <= 5
    ensures Reduce(c, top, i).c0 == c.c0 ^ LowBits(top, i)
  {
    if i > 0 {
      LowDigit(c, top, i - 1);
      LowBitsStep(c.c0, top, i);
    }
  }

  lemma LowBitsStep(x: Symbol, top: Symbol, i: nat)
    requires 0 < i <= 5
    ensures x ^ LowBits(top, i) ==
      if Selected(top, i - 1) then (x ^ LowBits(top, i - 1)) ^ Generator(i - 1).c0 else x ^ LowBits(top, i - 1)
  {
  }

  lemma {:induction false} StepSmall(c: State, d: Symbol)
    requires c.c7 == 0
    ensures Step(c, d) == Shifted(c, d)
  {
    ReduceNone(Shifted(c, d), 5);
  }

  lemma {:induction false} StepInjective(c: State)
    ensures Step(c, 0) == ZERO <==> c == ZERO
  {
    if c.c7 == 0 {
      StepSmall(c, 0);
    } else {
      LowDigit(Shifted(c, 0), c.c7, 5);
      assert 0 ^ c.c7 == c.c7;
    }
  }

  ghost predicate AllZero(e: seq<Symbol>) {
    forall i :: 0 <= i < |e| ==> e[i] == 0
  }

  lemma {:induction false} ZerosKeep(c: State, z: seq<Symbol>)
    requires AllZero(z)
    ensures Run(c, z) == ZERO <==> c == ZERO
  {
    if z != [] {
      ZerosKeep(c, z[..|z| - 1]);
      StepInjective(Run(c, z[..|z| - 1]));
    }
  }

  // The first k digits are zero.
  predicate TopZero(s: State, k: nat)
    requires k <= 8
  {
    && (k >= 1 ==> s.c7 == 0) && (k >= 2 ==> s.c6 == 0) && (k >= 3 ==> s.c5 == 0) && (k >= 4 ==> s.c4 == 0)
    && (k >= 5 ==> s.c3 == 0) && (k >= 6 ==> s.c2 == 0) && (k >= 7 ==> s.c1 == 0) && (k >= 8 ==> s.c0 == 0)
  }

  // Up to eight symbols fit in the state without any reduction.
  lemma {:induction false} WindowFits(e: seq<Symbol>)
    requires |e| <= 8
    ensures TopZero(Run(ZERO, e), 8 - |e|)
    ensures Run(ZERO, e) == ZERO <==> AllZero(e)
  {
    if e != [] {
      var k := |e| - 1;
      WindowFits(e[..k]);
      StepSmall(Run(ZERO, e[..k]), e[k]);
      assert AllZero(e) <==> AllZero(e[..k]) && e[k] == 0;
    }
  }

  // ---- Error detection ----

  // Two words of the same length that differ, but only within eight consecutive
  // positions, never end in the same state.
  lemma {:induction false} BurstDetected(c: State, v: seq<Symbol>, w: seq<Symbol>, k: nat)
    requires |v| == |w| && v != w
    requires forall i :: 0 <= i < |v| && !(k <= i < k + 8) ==> v[i] == w[i]
    ensures Run(c, v) != Run(c, w)
  {
    var e := Diff(v, w);
    var lo := if k < |e| then k else |e|;
    var hi := if k + 8 < |e| then k + 8 else |e|;
    var before, window, after := e[..lo], e[lo..hi], e[hi..];
    assert e == before + window + after;
    XorNothing(v, w);
    ZerosKeep(ZERO, before);
    RunConcat(ZERO, before + window, after);
    RunConcat(ZERO, before, window);
    WindowFits(window);
    assert !AllZero(window);
    ZerosKeep(Run(ZERO, window), after);
    RunXor(c, c, v, w);
    XorSelf(c);
    XorZero(Run(c, v), Run(c, w));
  }

  lemma XorNothing(v: seq<Symbol>, w: seq<Symbol>)
    requires |v| == |w|
    ensures forall i :: 0 <= i < |v| ==> (Diff(v, w)[i] == 0 <==> v[i] == w[i])
  {
    forall i | 0 <= i < |v|
      ensures Diff(v, w)[i] == 0 <==> v[i] == w[i]
    {
      SymbolZero(v[i], w[i]);
    }
  }

  lemma SymbolZero(x: Symbol, y: Symbol)
    ensures x ^ y == 0 <==> x == y
  {
  }

  // ---- Completion ----

  function Digits(s: State): seq<Symbol> {
    [s.c7, s.c6, s.c5, s.c4, s.c3, s.c2, s.c1, s.c0]
  }

  const ZEROS: seq<Symbol> := [0, 0, 0, 0, 0, 0, 0, 0]

  lemma {:induction false} RunDigits(s: seq<Symbol>)
    requires |s| == 8
    ensures Digits(Run(ZERO, s)) == s
  {
    Loaded(s, 8);
    assert s[..8] == s;
  }

  // After i symbols the state holds exactly those symbols as its last digits.
  lemma {:induction false} Loaded(s: seq<Symbol>, i: nat)
    requires |s| == 8 && i <= 8
    ensures forall j :: 0 <= j < i ==> Digits(Run(ZERO, s[..i]))[8 - i + j] == s[j]
  {
    if i > 0 {
      var q := Run(ZERO, s[..i - 1]);
      Loaded(s, i - 1);
      WindowFits(s[..i - 1]);
      assert s[..i][..i - 1] == s[..i - 1];
      StepSmall(q, s[i - 1]);
      ShiftedDigits(q, s[i - 1]);
    }
  }

  lemma ShiftedDigits(c: State, d: Symbol)
    ensures forall j :: 0 <= j < 7 ==> Digits(Shifted(c, d))[j] == Digits(c)[j + 1]
    ensures Digits(Shifted(c, d))[7] == d
  {
  }

  // Exactly one eight-symbol suffix makes a word valid, and it is the digits of
  // the polymod taken with zeros in its place.
  lemma {:induction false} UniqueChecksum(v: seq<Symbol>, s: seq<Symbol>)
    requires |s| == 8
    ensures PolymodOf(v + s) == ZERO <==> s == Digits(PolymodOf(v + ZEROS))
  {
    var r := Run(ONE, v);
    RunConcat(ONE, v, s);
    RunConcat(ONE, v, ZEROS);
    XorNone(r);
    assert Diff(ZEROS, s) == s;
    RunXor(r, ZERO, ZEROS, s);
    RunDigits(s);
    var a, b := Run(r, ZEROS), Run(ZERO, s);
    XorAssoc(a, b, ONE);
    XorCommutes(b, ONE);
    XorAssoc(a, ONE, b);
    XorZero(PolymodOf(v + ZEROS), b);
    DigitsInjective(PolymodOf(v + ZEROS), b);
  }

  lemma DigitsInjective(a: State, b: State)
    ensures Digits(a) == Digits(b) <==> a == b
  {
    if Digits(a) == Digits(b) {
      assert a.c7 == Digits(a)[0] && a.c6 == Digits(a)[1] && a.c5 == Digits(a)[2] && a.c4 == Digits(a)[3];
      assert a.c3 == Digits(a)[4] && a.c2 == Digits(a)[5] && a.c1 == Digits(a)[6] && a.c0 == Digits(a)[7];
      assert b.c7 == Digits(b)[0] && b.c6 == Digits(b)[1] && b.c5 == Digits(b)[2] && b.c4 == Digits(b)[3];
      assert b.c3 == Digits(b)[4] && b.c2 == Digits(b)[5] && b.c1 == Digits(b)[6] && b.c0 == Digits(b)[7];
    }
  }
}
