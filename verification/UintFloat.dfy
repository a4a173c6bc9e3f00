/**
 Conversion to f64 (`as_f64`). The reference is IEEE 754-2019: binary64
 encodings (section 3.4) and roundTiesToEven with overflow to infinity
 (section 4.3.1), stated over exact integers.
 */
module UintFloat {
  import opened Arith
  import opened Words
  import opened Limbs
  import opened UintShift

  const TWO52: nat := 0x10_0000_0000_0000

  // Bit pattern of positive infinity: exponent field 2047, fraction 0.
  const INFINITY: nat := 2047 * TWO52

  // The sign bit.
  const SIGN: nat := 0x8000_0000_0000_0000

  // Exponent field 2047 and a nonzero fraction, under either sign.
  predicate IsNaN(b: Word) {
    b % SIGN > INFINITY
  }

  // The largest value that as_f64 rounds correctly.
  function LastRounded(): nat {
    Pow2(1024) + Pow2(971)
  }

  // The smallest value whose exponent runs into the sign bit.
  function FirstNegative(): nat {
    Pow2Strict(971, 1025);
    Pow2(1025) - Pow2(971)
  }

  // The value of a nonnegative binary64 pattern in units of 2^-1074, the
  // smallest subnormal. Infinity stands for 2^1024, where the next binade would start.
  function ScaledValue(b: nat): nat {
    var exponent, fraction := b / TWO52, b % TWO52;
    if exponent == 0 then fraction else (TWO52 + fraction) * Pow2(exponent - 1)
  }

  // The integer v in the same units.
  function Scaled(v: nat): nat {
    v * Pow2(1074)
  }

  function Dist(x: nat, y: nat): nat {
    if x < y then y - x else x - y
  }

  // b is the binary64 nearest to v; of two equally near ones the even pattern.
  ghost predicate IsRounded(v: nat, b: nat) {
    && b <= INFINITY
    && forall c: nat | c <= INFINITY ::
         && Dist(Scaled(v), ScaledValue(b)) <= Dist(Scaled(v), ScaledValue(c))
         && (c != b && Dist(Scaled(v), ScaledValue(b)) == Dist(Scaled(v), ScaledValue(c)) ==> b % 2 == 0)
  }

  // q + r / u rounded to the nearest integer, ties to even.
  function RoundUp(q: nat, r: nat, u: nat): nat {
    if 2 * r > u || (2 * r == u && q % 2 == 1) then q + 1 else q
  }

  // x / u rounded to the nearest integer, ties to even.
  function RoundDiv(x: nat, u: nat): nat
    requires u > 0
  {
    RoundUp(x / u, x % u, u)
  }

  lemma RoundDivNearest(x: nat, u: nat)
    requires u > 0
    ensures 2 * Dist(x, RoundDiv(x, u) * u) <= u
    ensures 2 * Dist(x, RoundDiv(x, u) * u) == u ==> RoundDiv(x, u) % 2 == 0
  {
    var q, r := x / u, x % u;
    DivMod(x, u);
    assert (q + 1) * u == q * u + u;
  }

  lemma RoundDivScale(x: nat, u: nat, k: nat)
    requires u > 0 && k > 0
    ensures u * k > 0 && RoundDiv(x * k, u * k) == RoundDiv(x, u)
  {
    MulPositive(u, k);
    DivMod(x, u);
    ScaleQuotient(x, u, x / u, x % u, k);
    RoundUpScale(x / u, x % u, u, k);
  }

  lemma ScaleQuotient(x: nat, u: nat, q: nat, r: nat, k: nat)
    requires k > 0 && x == q * u + r && r < u && u * k > 0
    ensures (x * k) / (u * k) == q && (x * k) % (u * k) == r * k
  {
    MulStrict(k, r, u);
    assert (q * u + r) * k == q * (u * k) + r * k;
    DivModUnique(x * k, u * k, q, r * k);
  }

  lemma RoundUpScale(q: nat, r: nat, u: nat, k: nat)
    requires k > 0
    ensures RoundUp(q, r * k, u * k) == RoundUp(q, r, u)
  {
    assert 2 * (r * k) == k * (2 * r);
    CancelMul(k, 2 * r, u);
    CancelMul(k, u, 2 * r);
  }

  // What as_f64 returns, as a function of the value.
  function EncodeF64(v: nat): nat {
    if v == 0 then 0 else Code(v, 1074)
  }

  // Exponent and mantissa of v in units of 2^-s, put together by addition.
  function Code(v: nat, s: nat): nat
    requires s >= 53
  {
    var e := BitLength(v) + (s - 53);
    Pow2Positive(e);
    e * TWO52 + RoundDiv(v * Pow2(s), Pow2(e))
  }

  // Steps 1, 2, 6 and 7 of the source. Exact for every width. In the repository's
  // widest type, 48 limbs, the result is the correctly rounded binary64 precisely
  // up to 2^1024 + 2^971, then no number, and from 2^1025 - 2^971 on negative.
  method AsF64(a: Limbs) returns (bits: Word)
    requires |a| > 0
    ensures bits == EncodeF64(Value(a)) % BASE
    ensures Value(a) <= LastRounded() ==> IsRounded(Value(a), bits)
    ensures |a| <= 48 ==> (IsRounded(Value(a), bits) <==> Value(a) <= LastRounded())
    ensures |a| <= 48 ==> (IsNaN(bits) <==> LastRounded() < Value(a) < FirstNegative())
    ensures |a| <= 48 ==> (bits >= SIGN <==> Value(a) >= FirstNegative())
  {
    var leftAligned, leadingZeros := AlignLeft(a);
    var mantissa := RoundMantissa(leftAligned);
    var isZero := forall i :: 0 <= i < |a| ==> a[i] == 0;
    var exponent: nat := if isZero then 0 else 64 * |a| + 1021 - leadingZeros;
    bits := ((exponent * TWO52) % BASE + mantissa) % BASE;
    Assembled(a, leftAligned, mantissa, exponent);
    Fits48(a);
    Verdict(Value(a));
  }

  method AlignLeft(a: Limbs) returns (leftAligned: Limbs, leadingZeros: nat)
    requires |a| > 0
    ensures |leftAligned| == |a| && leadingZeros + BitLength(Value(a)) == 64 * |a|
    ensures Value(leftAligned) == Value(a) * Pow2(leadingZeros)
  {
    var length := Bits(a);
    leadingZeros := 64 * |a| - length;
    var lost;
    leftAligned, lost := OverflowingShl(a, leadingZeros);
    BitLengthBounds(Value(a));
    ModulusIsPow2(|a|);
    Aligned(Value(a), length, 64 * |a|, Value(leftAligned));
  }

  lemma {:induction false} Assembled(a: Limbs, left: Limbs, mantissa: nat, exponent: nat)
    requires |a| > 0 && |left| == |a| && BitLength(Value(a)) <= 64 * |a|
    requires Value(left) == Value(a) * Pow2(64 * |a| - BitLength(Value(a)))
    requires mantissa == RoundDiv(Value(left), Unit(|a|))
    requires exponent == if forall i :: 0 <= i < |a| ==> a[i] == 0 then 0 else BitLength(Value(a)) + 1021
    ensures ((exponent * TWO52) % BASE + mantissa) % BASE == EncodeF64(Value(a)) % BASE
  {
    Normalised(a, left, mantissa, exponent);
    Assemble(exponent * TWO52, mantissa);
  }

  // What the 64-bit word says about the value, up to 48 limbs.
  lemma {:induction false} Verdict(v: nat)
    ensures var bits := EncodeF64(v) % BASE;
      && (v <= LastRounded() ==> IsRounded(v, bits))
      && (BitLength(v) <= 3072 ==>
            && (IsRounded(v, bits) <==> v <= LastRounded())
            && (IsNaN(bits) <==> LastRounded() < v < FirstNegative())
            && (bits >= SIGN <==> v >= FirstNegative()))
  {
    RoundingVerdict(v);
    var b := EncodeF64(v);
    if b <= SIGN + INFINITY {
      SmallMod(b, BASE);
      NaNPattern(b);
    }
  }

  lemma NaNPattern(b: Word)
    requires b <= SIGN + INFINITY
    ensures IsNaN(b) <==> INFINITY < b < SIGN
  {
    if b < SIGN {
      SmallMod(b, SIGN);
    } else {
      DivModUnique(b, SIGN, 1, b - SIGN);
    }
  }

  lemma {:induction false} Fits48(a: Limbs)
    ensures |a| <= 48 ==> BitLength(Value(a)) <= 3072
  {
    if |a| <= 48 {
      ValueBound(a);
      ModulusIsPow2(|a|);
      BitLengthBelow(Value(a), 64 * |a|);
    }
  }

  // Steps 3 to 5: the top 53 bits, rounded on what lies below them.
  method RoundMantissa(leftAligned: Limbs) returns (rounded: nat)
    requires |leftAligned| > 0
    ensures rounded == RoundDiv(Value(leftAligned), Unit(|leftAligned|))
  {
    var n := |leftAligned|;
    var top := leftAligned[n - 1];
    var mantissa := ShiftRight(top, 11);
    var highestDroppedBits := ShiftLeft(top, 53);
    var highestDroppedBit := ShiftRight(highestDroppedBits, 63) != 0;
    var restDroppedBits: Word := ShiftLeft(highestDroppedBits, 1);
    ghost var first := restDroppedBits;
    for i := 0 to n - 1
      invariant restDroppedBits == 0 <==> first == 0 && forall k :: 0 <= k < i ==> leftAligned[k] == 0
    {
      OrIsZero(restDroppedBits, leftAligned[i]);
      BaseIsPow2();
      OrBound(restDroppedBits, leftAligned[i], 64);
      restDroppedBits := Or(restDroppedBits, leftAligned[i]);
    }
    var higherThanHalf := highestDroppedBit && restDroppedBits != 0;
    var exactlyHalfButMantissaOdd := highestDroppedBit && restDroppedBits == 0 && mantissa % 2 == 1;
    rounded := mantissa + if higherThanHalf || exactlyHalfButMantissaOdd then 1 else 0;
    RestIsLow(leftAligned, first, restDroppedBits);
    MantissaRounds(leftAligned, rounded, restDroppedBits);
  }

  lemma Assemble(e: nat, m: nat)
    ensures (e % BASE + m) % BASE == (e + m) % BASE
  {
    DivMod(e, BASE);
    ModAddMultiple(e / BASE, BASE, e % BASE + m);
  }

  lemma {:induction false} RestIsLow(s: Limbs, first: nat, rest: nat)
    requires |s| > 0
    requires rest == 0 <==> first == 0 && forall k :: 0 <= k < |s| - 1 ==> s[k] == 0
    ensures rest == 0 <==> first == 0 && Value(s[..|s| - 1]) == 0
  {
    ValueZero(s[..|s| - 1]);
  }

  // The left shift loses nothing: it brings the highest set bit to the top.
  lemma Aligned(v: nat, length: nat, total: nat, left: nat)
    requires 0 < total && length <= total && v < Pow2(length) && (length == 0 <==> v == 0) && Pow2(total) > 0
    requires left == (v * Pow2((total - length) % total)) % Pow2(total)
    ensures left == v * Pow2(total - length)
  {
    if v == 0 {
      SmallMod(0, Pow2(total));
    } else {
      SmallMod(total - length, total);
      ScaleBelow(v, length, total - length);
      SmallMod(v * Pow2(total - length), Pow2(total));
    }
  }

  // The unit in the last place of the mantissa once the value is left-aligned.
  function Unit(n: nat): (u: nat)
    requires n > 0
    ensures u > 0
  {
    ModulusPositive(n - 1);
    0x800 * Modulus(n - 1)
  }

  lemma {:induction false} MantissaRounds(left: Limbs, rounded: nat, rest: nat)
    requires |left| > 0
    requires var top := left[|left| - 1];
      && (rest == 0 <==> ShiftLeft(ShiftLeft(top, 53), 1) == 0 && Value(left[..|left| - 1]) == 0)
      && rounded == ShiftRight(top, 11) +
           if ShiftRight(ShiftLeft(top, 53), 63) != 0 && (rest != 0 || ShiftRight(top, 11) % 2 == 1) then 1 else 0
    ensures rounded == RoundDiv(Value(left), Unit(|left|))
  {
    var k := |left| - 1;
    var top, m, low := left[k], Modulus(k), Value(left[..k]);
    assert left[..k + 1] == left;
    ValueSnoc(left, k);
    ValueBound(left[..k]);
    TopBits(top);
    RoundTop(top, low, m);
  }

  lemma TopBits(top: Word)
    ensures ShiftRight(top, 11) == top / 0x800
    ensures ShiftRight(ShiftLeft(top, 53), 63) != 0 <==> top % 0x800 >= 0x400
    ensures ShiftLeft(ShiftLeft(top, 53), 1) == 0 <==> top % 0x400 == 0
  {
    PowerTable();
    DroppedBits(top);
    HighestDropped(top, ShiftLeft(top, 53));
    RestDropped(top, ShiftLeft(top, 53));
  }

  // The eleven bits below the mantissa, moved to the top of the word.
  lemma DroppedBits(top: Word)
    ensures (top * 0x20_0000_0000_0000) % BASE == (top % 0x800) * 0x20_0000_0000_0000
  {
    var q, t := top / 0x800, top % 0x800;
    DivModUnique(top * 0x20_0000_0000_0000, BASE, q, t * 0x20_0000_0000_0000);
  }

  lemma HighestDropped(top: Word, dropped: Word)
    requires dropped == (top % 0x800) * 0x20_0000_0000_0000
    ensures dropped / 0x8000_0000_0000_0000 != 0 <==> top % 0x800 >= 0x400
  {
  }

  lemma RestDropped(top: Word, dropped: Word)
    requires dropped == (top % 0x800) * 0x20_0000_0000_0000
    ensures (dropped * 2) % BASE == 0 <==> top % 0x400 == 0
  {
    var t := top % 0x400;
    LowTen(top);
    if top % 0x800 < 0x400 {
      SmallMod(dropped * 2, BASE);
    } else {
      DivModUnique(dropped * 2, BASE, 1, t * 0x40_0000_0000_0000);
    }
  }

  lemma LowTen(top: nat)
    ensures top % 0x400 == if top % 0x800 < 0x400 then top % 0x800 else top % 0x800 - 0x400
  {
    var q, t := top / 0x800, top % 0x800;
    if t < 0x400 {
      DivModUnique(top, 0x400, 2 * q, t);
    } else {
      DivModUnique(top, 0x400, 2 * q + 1, t - 0x400);
    }
  }

  // Rounding the aligned value is decided by the top word and whether anything follows it.
  lemma RoundTop(top: nat, low: nat, m: nat)
    requires low < m
    ensures 0x800 * m > 0
    ensures var q := top / 0x800;
      RoundDiv(low + top * m, 0x800 * m) ==
      q + if top % 0x800 >= 0x400 && (!(top % 0x400 == 0 && low == 0) || q % 2 == 1) then 1 else 0
  {
    var q, t := top / 0x800, top % 0x800;
    SplitTop(top, q, t, low, m);
    LowTen(top);
    AboveHalf(t, low, m);
  }

  // Where low + t m lies relative to half of 2048 m.
  lemma AboveHalf(t: nat, low: nat, m: nat)
    requires low < m
    ensures 2 * (low + t * m) > 0x800 * m <==> t > 0x400 || (t == 0x400 && low > 0)
    ensures 2 * (low + t * m) == 0x800 * m <==> t == 0x400 && low == 0
  {
    if t > 0x400 {
      MulMonotone(m, 0x401, t);
    } else if t < 0x400 {
      MulMonotone(m, t, 0x3FF);
    }
  }

  lemma SplitTop(top: nat, q: nat, t: nat, low: nat, m: nat)
    requires low < m && top == q * 0x800 + t && t < 0x800
    ensures 0x800 * m > 0
    ensures (low + top * m) / (0x800 * m) == q && (low + top * m) % (0x800 * m) == low + t * m
  {
    assert (q * 0x800 + t) * m == q * (0x800 * m) + t * m;
    MulMonotone(m, t + 1, 0x800);
    assert m * (t + 1) == t * m + m;
    DivModUnique(low + top * m, 0x800 * m, q, low + t * m);
  }

  lemma {:induction false} Normalised(a: Limbs, left: Limbs, mantissa: nat, exponent: nat)
    requires |a| > 0 && |left| == |a| && BitLength(Value(a)) <= 64 * |a|
    requires Value(left) == Value(a) * Pow2(64 * |a| - BitLength(Value(a)))
    requires mantissa == RoundDiv(Value(left), Unit(|a|))
    requires exponent == if forall i :: 0 <= i < |a| ==> a[i] == 0 then 0 else BitLength(Value(a)) + 1021
    ensures exponent * TWO52 + mantissa == EncodeF64(Value(a))
  {
    var n, v, length := |a|, Value(a), BitLength(Value(a));
    ValueZero(a);
    if v == 0 {
      SmallMod(0, Unit(n));
    } else {
      var k, p, u := Pow2(1074), Pow2(64 * n - length), Pow2(length + 1021);
      Pow2Positive(1074);
      Pow2Positive(64 * n - length);
      Pow2Positive(length + 1021);
      UnitScaled(n, length);
      MulSwap(v, p, k);
      RoundDivScale(Value(left), Unit(n), k);
      RoundDivScale(Scaled(v), u, p);
    }
  }

  lemma {:induction false} UnitScaled(n: nat, length: nat)
    requires n > 0 && length <= 64 * n
    ensures Unit(n) * Pow2(1074) == Pow2(length + 1021) * Pow2(64 * n - length)
  {
    UnitIsPow2(n);
    Pow2Add(64 * n - 53, 1074);
    Pow2Add(length + 1021, 64 * n - length);
  }

  lemma MulSwap(a: int, b: int, c: int)
    ensures (a * b) * c == (a * c) * b
  {
  }

  lemma {:induction false} UnitIsPow2(n: nat)
    requires n > 0
    ensures Unit(n) == Pow2(64 * n - 53)
  {
    ModulusIsPow2(n - 1);
    PowerTable();
    Pow2Add(11, 64 * (n - 1));
  }

  // Consecutive patterns are one unit in the last place apart, across binades too.
  function Ulp(b: nat): (u: nat)
    ensures u > 0
  {
    var exponent := b / TWO52;
    var e := if exponent == 0 then 0 else exponent - 1;
    Pow2Positive(e);
    Pow2(e)
  }

  lemma {:induction false} NextPattern(b: nat)
    ensures ScaledValue(b + 1) == ScaledValue(b) + Ulp(b)
  {
    var e, f := b / TWO52, b % TWO52;
    if f + 1 < TWO52 {
      DivModUnique(b + 1, TWO52, e, f + 1);
      if e > 0 {
        assert (TWO52 + (f + 1)) * Pow2(e - 1) == (TWO52 + f) * Pow2(e - 1) + Pow2(e - 1);
      }
    } else {
      DivModUnique(b + 1, TWO52, e + 1, 0);
      if e > 0 {
        var p := Pow2(e - 1);
        assert Pow2(e) == 2 * p;
        assert TWO52 * (2 * p) == (2 * TWO52 - 1) * p + p;
      }
    }
  }

  lemma {:induction false} PatternsIncrease(b: nat, c: nat)
    requires b < c
    ensures ScaledValue(b) + Ulp(b) <= ScaledValue(c)
  {
    NextPattern(c - 1);
    if b < c - 1 {
      PatternsIncrease(b, c - 1);
    }
  }

  // Pattern and value of an encoded mantissa, including the carry into the exponent.
  lemma {:induction false} EncodedValue(e: nat, m: nat)
    requires TWO52 <= m <= 2 * TWO52
    ensures ScaledValue(e * TWO52 + m) == m * Pow2(e)
    ensures Ulp(e * TWO52 + m) >= Pow2(e)
    ensures m > TWO52 ==> Ulp(e * TWO52 + m - 1) == Pow2(e)
  {
    var b := e * TWO52 + m;
    if m < 2 * TWO52 {
      DivModUnique(b, TWO52, e + 1, m - TWO52);
    } else {
      DivModUnique(b, TWO52, e + 2, 0);
      assert Pow2(e + 1) == 2 * Pow2(e);
      assert TWO52 * (2 * Pow2(e)) == (2 * TWO52) * Pow2(e);
    }
    if m > TWO52 {
      DivModUnique(b - 1, TWO52, e + 1, m - 1 - TWO52);
    }
  }

  // Between 2^(k-1) and 2^k the mantissa has 53 bits before rounding.
  lemma {:induction false} MantissaRange(v: nat)
    requires v > 0
    ensures Pow2(BitLength(v) + 1021) > 0
    ensures TWO52 * Pow2(BitLength(v) + 1021) <= Scaled(v) < (2 * TWO52) * Pow2(BitLength(v) + 1021)
    ensures TWO52 <= RoundDiv(Scaled(v), Pow2(BitLength(v) + 1021)) <= 2 * TWO52
  {
    BinadeOf(v, 1074);
    RoundRange(Scaled(v), Pow2(BitLength(v) + 1021));
  }

  lemma {:induction false} TimesTwo52(j: nat)
    ensures Pow2(52 + j) == TWO52 * Pow2(j)
    ensures Pow2(53 + j) == (2 * TWO52) * Pow2(j)
  {
    PowerTable();
    Pow2Add(52, j);
    Pow2Add(53, j);
  }

  lemma {:induction false} BinadeOf(v: nat, s: nat)
    requires v > 0 && s >= 53
    ensures var u := Pow2(BitLength(v) + (s - 53));
      u > 0 && TWO52 * u <= v * Pow2(s) < (2 * TWO52) * u
  {
    BitLengthBounds(v);
    Binade(v, BitLength(v), s, BitLength(v) + (s - 53));
  }

  lemma {:induction false} Binade(v: nat, k: nat, s: nat, j: nat)
    requires k > 0 && s >= 53 && Pow2(k - 1) <= v < Pow2(k) && j == k + (s - 53)
    ensures Pow2(j) > 0 && TWO52 * Pow2(j) <= v * Pow2(s) < (2 * TWO52) * Pow2(j)
  {
    Pow2Positive(j);
    TimesTwo52(j);
    ScaledBetween(v, k, s, 52 + j);
  }

  lemma {:induction false} ScaledBetween(v: nat, k: nat, s: nat, t: nat)
    requires k > 0 && Pow2(k - 1) <= v < Pow2(k) && t == k - 1 + s
    ensures Pow2(t) <= v * Pow2(s) < Pow2(t + 1)
  {
    ScaleAbove(v, k - 1, s);
    ScaleBelow(v, k, s);
  }

  lemma RoundRange(x: nat, u: nat)
    requires u > 0 && TWO52 * u <= x < (2 * TWO52) * u
    ensures TWO52 <= RoundDiv(x, u) <= 2 * TWO52
  {
    DivAtLeast(x, u, TWO52);
    DivBelow(x, u, 2 * TWO52);
  }

  // Every other pattern is a full unit away, or just below the bottom of the binade.
  lemma {:induction false} PatternGap(e: nat, m: nat, c: nat)
    requires TWO52 <= m <= 2 * TWO52 && c != e * TWO52 + m
    ensures var s, t, u := ScaledValue(e * TWO52 + m), ScaledValue(c), Pow2(e);
      t >= s + u || t + u <= s || (m == TWO52 && t < s)
  {
    var b := e * TWO52 + m;
    EncodedValue(e, m);
    if c > b {
      PatternsIncrease(b, c);
    } else {
      PatternsIncrease(c, b);
      if m > TWO52 {
        NextPattern(b - 1);
        if c < b - 1 {
          PatternsIncrease(c, b - 1);
        }
      }
    }
  }

  // Within half a unit of s, nothing a unit away is nearer.
  lemma Nearer(x: nat, s: nat, u: nat, t: nat)
    requires 2 * Dist(x, s) <= u
    requires t >= s + u || t + u <= s || (s <= x && t < s)
    ensures Dist(x, s) <= Dist(x, t)
    ensures Dist(x, s) == Dist(x, t) ==> 2 * Dist(x, s) == u
  {
  }

  lemma EvenPattern(e: nat, m: nat)
    ensures (e * TWO52 + m) % 2 == m % 2
  {
    assert e * TWO52 + m == 2 * (e * 0x8_0000_0000_0000) + m;
  }

  // A pattern within half a unit, even on a tie, is the nearest one.
  lemma {:induction false} NearestPattern(x: nat, e: nat, m: nat, u: nat, c: nat)
    requires TWO52 <= m <= 2 * TWO52 && u == Pow2(e)
    requires var s := ScaledValue(e * TWO52 + m);
      && 2 * Dist(x, s) <= u && (2 * Dist(x, s) == u ==> m % 2 == 0) && (m == TWO52 ==> s <= x)
    ensures var b := e * TWO52 + m;
      && Dist(x, ScaledValue(b)) <= Dist(x, ScaledValue(c))
      && (c != b && Dist(x, ScaledValue(b)) == Dist(x, ScaledValue(c)) ==> b % 2 == 0)
  {
    EvenPattern(e, m);
    if c != e * TWO52 + m {
      PatternGap(e, m, c);
      Nearer(x, ScaledValue(e * TWO52 + m), u, ScaledValue(c));
    }
  }

  lemma {:induction false} FiniteRounded(v: nat)
    requires v > 0 && EncodeF64(v) <= INFINITY
    ensures IsRounded(v, EncodeF64(v))
  {
    var e := BitLength(v) + 1021;
    MantissaRange(v);
    RoundDivNearest(Scaled(v), Pow2(e));
    var m := RoundDiv(Scaled(v), Pow2(e));
    EncodedValue(e, m);
    forall c: nat | c <= INFINITY {
      NearestPattern(Scaled(v), e, m, Pow2(e), c);
    }
  }

  // In the binade above 2^r the mantissa stays at its least up to 2^r + 2^(r-53)
  // and rounds up out of the binade from 2^(r+1) - 2^(r-53) on.
  lemma {:induction false} BinadeEnds(v: nat, r: nat, s: nat)
    requires r >= 53 && s >= 53 && BitLength(v) == r + 1 && Pow2(r - 53) <= Pow2(r + 1)
    ensures var u := Pow2(r + (s - 52));
      && u > 0
      && (RoundDiv(v * Pow2(s), u) == TWO52 <==> v <= Pow2(r) + Pow2(r - 53))
      && (RoundDiv(v * Pow2(s), u) == 2 * TWO52 <==> v >= Pow2(r + 1) - Pow2(r - 53))
  {
    Pow2Positive(s);
    BinadeOf(v, s);
    assert r + 1 + (s - 53) == r + (s - 52);
    EndsScaled(r, s);
    EndsAt(v, Pow2(s), Pow2(r + (s - 52)), Pow2(r) + Pow2(r - 53), Pow2(r + 1) - Pow2(r - 53));
  }

  lemma EndsAt(v: nat, k: nat, u: nat, lo: nat, hi: nat)
    requires k > 0 && u > 0 && TWO52 * u <= v * k < (2 * TWO52) * u
    requires 2 * (lo * k) == (2 * TWO52 + 1) * u && 2 * (hi * k) == (4 * TWO52 - 1) * u
    ensures RoundDiv(v * k, u) == TWO52 <==> v <= lo
    ensures RoundDiv(v * k, u) == 2 * TWO52 <==> v >= hi
  {
    RoundAtMost(v * k, u, TWO52);
    RoundAtLeast(v * k, u, 2 * TWO52);
    TwiceOrder(v, lo, k, 2 * (lo * k));
    TwiceOrder(v, hi, k, 2 * (hi * k));
  }

  lemma {:induction false} EndsScaled(r: nat, s: nat)
    requires r >= 53 && s >= 53 && Pow2(r - 53) <= Pow2(r + 1)
    ensures 2 * ((Pow2(r) + Pow2(r - 53)) * Pow2(s)) == (2 * TWO52 + 1) * Pow2(r + (s - 52))
    ensures 2 * ((Pow2(r + 1) - Pow2(r - 53)) * Pow2(s)) == (4 * TWO52 - 1) * Pow2(r + (s - 52))
  {
    TimesTwo52(r + (s - 52));
    Pow2Add(r, s);
    Pow2Add(r + 1, s);
    Pow2Add(r - 53, s);
    Pow2Add(1, r + (s - 53));
    EndsArith(Pow2(r), Pow2(r + 1), Pow2(r - 53), Pow2(s), TWO52, Pow2(r + (s - 52)), Pow2(r + (s - 53)));
  }

  lemma EndsArith(a: nat, c: nat, b: nat, k: nat, t: nat, u: nat, h: nat)
    requires a * k == t * u && c * k == (2 * t) * u && b * k == h && u == 2 * h
    ensures 2 * ((a + b) * k) == (2 * t + 1) * u
    ensures 2 * ((c - b) * k) == (4 * t - 1) * u
  {
    assert (a + b) * k == a * k + b * k;
    assert (c - b) * k == c * k - b * k;
    assert (2 * t + 1) * u == 2 * (t * u) + u;
    assert (4 * t - 1) * u == 2 * ((2 * t) * u) - u;
  }

  // Comparing doubled multiples of k.
  lemma TwiceOrder(v: nat, w: nat, k: nat, x: int)
    requires k > 0 && x == 2 * (w * k)
    ensures 2 * (v * k) <= x <==> v <= w
    ensures 2 * (v * k) >= x <==> v >= w
  {
    CancelMul(k, v, w);
    CancelMul(k, w, v);
    MulOrder(v, w, k);
    MulOrder(w, v, k);
  }

  lemma MulOrder(v: nat, w: nat, k: nat)
    requires k > 0
    ensures v <= w ==> v * k <= w * k
    ensures v < w ==> v * k < w * k
  {
    if v <= w {
      MulMonotone(k, v, w);
    }
    if v < w {
      MulStrict(k, v, w);
    }
  }

  lemma RoundAtMost(x: nat, u: nat, q: nat)
    requires u > 0 && q * u <= x && q % 2 == 0
    ensures RoundDiv(x, u) == q <==> 2 * x <= (2 * q + 1) * u
  {
    DivMod(x, u);
    DivAtLeast(x, u, q);
    RoundAtMostArith(x / u, x % u, u, q);
  }

  lemma RoundAtMostArith(d: nat, r: nat, u: nat, q: nat)
    requires r < u && q <= d && q % 2 == 0
    ensures RoundUp(d, r, u) == q <==> 2 * (d * u + r) <= (2 * q + 1) * u
  {
    if d == q {
      assert (2 * q + 1) * u == 2 * (d * u) + u;
    } else {
      MulMonotone(u, 2 * q + 2, 2 * d);
      assert u * (2 * q + 2) == (2 * q + 1) * u + u;
      assert u * (2 * d) == 2 * (d * u);
    }
  }

  lemma RoundAtLeast(x: nat, u: nat, q: nat)
    requires u > 0 && x < q * u && q % 2 == 0 && q > 0
    ensures RoundDiv(x, u) == q <==> 2 * x >= (2 * q - 1) * u
  {
    DivMod(x, u);
    DivBelow(x, u, q);
    RoundAtLeastArith(x / u, x % u, u, q);
  }

  lemma RoundAtLeastArith(d: nat, r: nat, u: nat, q: nat)
    requires r < u && d < q && q % 2 == 0
    ensures RoundUp(d, r, u) == q <==> 2 * (d * u + r) >= (2 * q - 1) * u
  {
    if d == q - 1 {
      assert (2 * q - 1) * u == 2 * (d * u) + u;
    } else {
      MulMonotone(u, 2 * d + 2, 2 * q - 2);
      assert u * (2 * d + 2) == 2 * (d * u) + 2 * u;
      assert u * (2 * q - 2) == (2 * q - 1) * u - u;
    }
  }

  lemma {:induction false} ZeroRounded()
    ensures IsRounded(0, 0)
  {
    assert Scaled(0) == 0;
  }

  // What becomes of every value: correctly rounded, then no number, then negative.
  lemma {:induction false} RoundingVerdict(v: nat)
    ensures v <= LastRounded() ==> EncodeF64(v) <= INFINITY && IsRounded(v, EncodeF64(v))
    ensures LastRounded() < v < FirstNegative() ==> INFINITY < EncodeF64(v) < SIGN
    ensures v >= FirstNegative() ==> EncodeF64(v) >= SIGN
    ensures BitLength(v) <= 3072 ==> EncodeF64(v) <= SIGN + INFINITY
    ensures LastRounded() < FirstNegative()
  {
    RangesApart(1024);
    if v == 0 {
      ZeroRounded();
    } else {
      EncodedRange(v);
      if v <= LastRounded() {
        FiniteRounded(v);
      }
    }
  }

  lemma {:induction false} RangesApart(r: nat)
    requires r >= 53
    ensures Pow2(r - 53) <= Pow2(r + 1)
    ensures Pow2(r) < Pow2(r) + Pow2(r - 53) < Pow2(r + 1) - Pow2(r - 53) < Pow2(r + 1)
  {
    TimesTwo52(r - 53);
    Pow2Positive(r - 53);
    Pow2Add(1, r);
    assert Pow2(r + 1) == 2 * Pow2(r);
  }

  lemma {:induction false} EncodedRange(v: nat)
    requires v > 0
    ensures EncodeF64(v) <= INFINITY <==> v <= LastRounded()
    ensures EncodeF64(v) >= SIGN <==> v >= FirstNegative()
    ensures BitLength(v) <= 3072 ==> EncodeF64(v) <= SIGN + INFINITY
  {
    CodeRange(v, 1024, 1074);
  }

  // The same for any binade r and any scale s.
  lemma {:induction false} CodeRange(v: nat, r: nat, s: nat)
    requires v > 0 && r >= 53 && s >= 53
    ensures Pow2(r - 53) <= Pow2(r + 1)
    ensures TWO52 <= Code(v, s) - (BitLength(v) + (s - 53)) * TWO52 <= 2 * TWO52
    ensures Code(v, s) <= (r + s - 51) * TWO52 <==> v <= Pow2(r) + Pow2(r - 53)
    ensures Code(v, s) >= (r + s - 50) * TWO52 <==> v >= Pow2(r + 1) - Pow2(r - 53)
  {
    var k := BitLength(v);
    BinadeOf(v, s);
    RoundRange(v * Pow2(s), Pow2(k + (s - 53)));
    RangesApart(r);
    BitLengthBounds(v);
    if k <= r {
      Pow2Monotone(k, r);
    } else if k == r + 1 {
      BinadeEnds(v, r, s);
      assert r + 1 + (s - 53) == r + (s - 52);
    } else {
      Pow2Monotone(r + 1, k - 1);
    }
  }

  // A power of two encodes exactly, whatever the exponent field has room for.
  lemma {:induction false} PowerEncoded(k: nat)
    ensures EncodeF64(Pow2(k)) == (k + 1023) * TWO52
  {
    Pow2Positive(k);
    Pow2Strict(k, k + 1);
    BitLengthUnique(Pow2(k), k + 1);
    Pow2Add(k, 1074);
    TimesTwo52(k + 1022);
    Pow2Positive(k + 1022);
    RoundExact(TWO52, Pow2(k + 1022));
  }

  lemma RoundExact(m: nat, u: nat)
    requires u > 0
    ensures RoundDiv(m * u, u) == m
  {
    DivModUnique(m * u, u, m, 0);
  }

  // 2^k becomes -2^(k-2048) once its exponent has run into the sign bit, starting
  // with -0.0 for 2^1025; up to 2^3071 these values fit in 48 limbs.
  lemma {:induction false} NegativePowers(k: nat)
    requires 1025 <= k <= 3071
    ensures EncodeF64(Pow2(k)) == SIGN + (k - 1025) * TWO52
  {
    PowerEncoded(k);
  }

  lemma {:induction false} NegativeZero()
    ensures EncodeF64(Pow2(1025)) == SIGN
  {
    PowerEncoded(1025);
  }

  // The value one unit past 2^r becomes no number exactly for r = 1024.
  lemma {:induction false} NextIsNaN(r: nat)
    requires 52 <= r <= 3071
    ensures EncodeF64(Pow2(r) + Pow2(r - 52)) < BASE
    ensures IsNaN(EncodeF64(Pow2(r) + Pow2(r - 52))) <==> r == 1024
  {
    NextToPower(r);
    NaNCode(r, EncodeF64(Pow2(r) + Pow2(r - 52)));
  }

  lemma NaNCode(r: nat, code: nat)
    requires r <= 3071 && code == (r + 1023) * TWO52 + 1
    ensures code < BASE && (IsNaN(code) <==> r == 1024)
  {
    NaNPattern(code);
  }

  lemma {:induction false} NextToPower(r: nat)
    requires r >= 52
    ensures EncodeF64(Pow2(r) + Pow2(r - 52)) == (r + 1023) * TWO52 + 1
  {
    var v := Pow2(r) + Pow2(r - 52);
    TimesTwo52(r - 52);
    Pow2Positive(r - 52);
    assert Pow2(r + 1) == 2 * Pow2(r);
    BitLengthUnique(v, r + 1);
    NextScaled(r, 1074);
    Pow2Positive(r + 1022);
    RoundExact(TWO52 + 1, Pow2(r + 1022));
  }

  lemma {:induction false} NextScaled(r: nat, s: nat)
    requires r >= 52 && s >= 52
    ensures (Pow2(r) + Pow2(r - 52)) * Pow2(s) == (TWO52 + 1) * Pow2(r + (s - 52))
  {
    TimesTwo52(r + (s - 52));
    Pow2Add(r, s);
    Pow2Add(r - 52, s);
    NextArith(Pow2(r), Pow2(r - 52), Pow2(s), TWO52, Pow2(r + (s - 52)));
  }

  lemma NextArith(a: nat, b: nat, k: nat, t: nat, u: nat)
    requires a * k == t * u && b * k == u
    ensures (a + b) * k == (t + 1) * u
  {
  }

  // At most one pattern is the correctly rounded one.
  lemma {:induction false} RoundedUnique(v: nat, b: nat, c: nat)
    requires IsRounded(v, b) && IsRounded(v, c)
    ensures b == c
  {
    if b < c {
      BetweenIsNearer(Scaled(v), b, c);
    } else if c < b {
      BetweenIsNearer(Scaled(v), c, b);
    }
  }

  lemma {:induction false} BetweenIsNearer(x: nat, b: nat, c: nat)
    requires b < c && b % 2 == 0 && c % 2 == 0
    requires Dist(x, ScaledValue(b)) == Dist(x, ScaledValue(c))
    ensures Dist(x, ScaledValue(b + 1)) < Dist(x, ScaledValue(b))
  {
    NextPattern(b);
    PatternsIncrease(b + 1, c);
  }

  // Integers below 2^53 convert without error.
  lemma {:induction false} ExactBelow53Bits(v: nat)
    requires v < Pow2(53)
    ensures ScaledValue(EncodeF64(v)) == Scaled(v)
  {
    if v > 0 {
      BitLengthBelow(v, 53);
      ExactCode(v, 1074);
    }
  }

  // The same at any scale.
  lemma {:induction false} ExactCode(v: nat, s: nat)
    requires v > 0 && BitLength(v) <= 53 <= s
    ensures ScaledValue(Code(v, s)) == v * Pow2(s)
  {
    var k := BitLength(v);
    var m, e := v * Pow2(53 - k), k + (s - 53);
    WholeMantissa(v, k, s);
    BinadeOf(v, s);
    FactorBetween(m, Pow2(e));
    CodeWhole(v, s, m);
    EncodedValue(e, m);
  }

  lemma FactorBetween(m: nat, u: nat)
    requires u > 0 && TWO52 * u <= m * u < (2 * TWO52) * u
    ensures TWO52 <= m <= 2 * TWO52
  {
    CancelMul(u, TWO52, m);
    CancelMul(u, m, 2 * TWO52);
  }

  lemma {:induction false} CodeWhole(v: nat, s: nat, m: nat)
    requires s >= 53 && v * Pow2(s) == m * Pow2(BitLength(v) + (s - 53))
    ensures Code(v, s) == (BitLength(v) + (s - 53)) * TWO52 + m
  {
    Pow2Positive(BitLength(v) + (s - 53));
    RoundExact(m, Pow2(BitLength(v) + (s - 53)));
  }

  lemma {:induction false} WholeMantissa(v: nat, k: nat, s: nat)
    requires k <= 53 <= s
    ensures v * Pow2(s) == (v * Pow2(53 - k)) * Pow2(k + (s - 53))
  {
    Pow2Add(53 - k, k + (s - 53));
    MulAssoc(v, Pow2(53 - k), Pow2(k + (s - 53)));
  }
}
