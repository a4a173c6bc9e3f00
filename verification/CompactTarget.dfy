/**
 The compact ("nBits") encoding of 256-bit targets: one size byte and a 23-bit
 mantissa in a u32. Encoding rounds down to the nearest representable target.
 */
module CompactTarget {
  import opened Arith
  import opened Words
  import opened Limbs
  import opened UintShift

  const SIZE_UNIT: nat := 0x100_0000
  const U32: nat := 0x1_0000_0000

  // v with b zero bytes appended, and v with its b low bytes dropped.
  function Up(v: nat, b: nat): nat {
    if b == 0 then v else 0x100 * Up(v, b - 1)
  }

  function Down(v: nat, b: nat): nat {
    if b == 0 then v else Down(v / 0x100, b - 1)
  }

  // 2^256, the first number that does not fit.
  const LIMIT: nat := 0x1_0000_0000_0000_0000_0000_0000_0000_0000_0000_0000_0000_0000_0000_0000_0000_0000

  // The size byte of an encoded nonzero value. A mantissa with bit 23 set would
  // read as negative, so such values take one byte more.
  function Size(v: nat): nat {
    BitLength(v) / 8 + 1
  }

  function Mantissa(v: nat): nat {
    if Size(v) <= 3 then Up(v, 3 - Size(v)) else Down(v, Size(v) - 3)
  }

  // What compact_target_bits computes, as a function of the value.
  function Encode(v: nat): nat {
    if v == 0 then 0 else Size(v) * SIZE_UNIT + Mantissa(v)
  }

  // What from_compact_target_bits computes. The final shift is taken modulo 256
  // bits and its result modulo 2^256, as with overflow checks off.
  function Decode(bits: nat): nat {
    var size, word := bits / SIZE_UNIT, bits % SIZE_UNIT;
    if size <= 3 then
      var mant := Down(word, 3 - size);
      if mant > 0x7F_FFFF then 0 else mant
    else if word > 0x7F_FFFF then 0
    else Up(word, (size - 3) % 32) % LIMIT
  }

  // ---- Appending and dropping bytes ----

  lemma {:induction false} UpPositive(v: nat, b: nat)
    ensures v > 0 ==> Up(v, b) > 0
    ensures v <= Up(v, b)
  {
    if b > 0 {
      UpPositive(v, b - 1);
    }
  }

  // Dropping is the adjoint of appending.
  lemma {:induction false} Adjoint(w: nat, v: nat, b: nat)
    ensures Up(w, b) <= v <==> w <= Down(v, b)
  {
    if b > 0 {
      Adjoint(w, v / 0x100, b - 1);
    }
  }

  lemma {:induction false} DownUp(v: nat, b: nat)
    ensures Down(Up(v, b), b) == v
  {
    if b > 0 {
      DownUp(v, b - 1);
    }
  }

  lemma {:induction false} UpUp(v: nat, a: nat, b: nat)
    ensures Up(Up(v, a), b) == Up(v, a + b)
  {
    if b > 0 {
      UpUp(v, a, b - 1);
    }
  }

  lemma {:induction false} UpMonotone(v: nat, w: nat, b: nat)
    requires v <= w
    ensures Up(v, b) <= Up(w, b)
  {
    if b > 0 {
      UpMonotone(v, w, b - 1);
    }
  }

  lemma {:induction false} UpLonger(v: nat, a: nat, b: nat)
    requires a <= b
    ensures Up(v, a) <= Up(v, b)
  {
    UpUp(v, a, b - a);
    UpPositive(Up(v, a), b - a);
  }

  lemma {:induction false} UpAdd(v: nat, w: nat, b: nat)
    ensures Up(v + w, b) == Up(v, b) + Up(w, b)
  {
    if b > 0 {
      UpAdd(v, w, b - 1);
    }
  }

  lemma {:induction false} UpPow2(v: nat, b: nat)
    ensures Up(v, b) == v * Pow2(8 * b)
  {
    if b > 0 {
      UpPow2(v, b - 1);
      Pow2Add(8, 8 * (b - 1));
      TwoTo8();
      assert v * (0x100 * Pow2(8 * (b - 1))) == 0x100 * (v * Pow2(8 * (b - 1)));
    }
  }

  lemma {:induction false} DownPow2(v: nat, b: nat)
    ensures Pow2(8 * b) > 0 && Down(v, b) == v / Pow2(8 * b)
  {
    Pow2Positive(8 * b);
    if b > 0 {
      DownPow2(v / 0x100, b - 1);
      Pow2Add(8, 8 * (b - 1));
      TwoTo8();
      DivDiv(v, 0x100, Pow2(8 * (b - 1)));
    }
  }

  lemma TwoTo8()
    ensures Pow2(8) == 0x100
  {
  }

  lemma LimitInBytes()
    ensures Up(1, 32) == LIMIT && Up(1, 8) == BASE
  {
    assert Up(1, 4) == U32;
    UpUp(1, 4, 4);
    assert Up(U32, 4) == BASE;
    UpUp(1, 8, 8);
    UpScale(BASE, 8);
    UpUp(1, 16, 16);
    UpScale(BASE * BASE, 16);
  }

  lemma LimitIsModulus()
    ensures LIMIT == Modulus(4)
  {
    LimitInBytes();
    UpPow2(1, 32);
    ModulusIsPow2(4);
  }

  // ---- Sizes and mantissas ----

  lemma {:induction false} BitLengthTimes256(v: nat)
    requires v > 0
    ensures BitLength(0x100 * v) == BitLength(v) + 8
  {
    assert BitLength(2 * v) == BitLength(v) + 1;
    assert BitLength(4 * v) == BitLength(2 * v) + 1;
    assert BitLength(8 * v) == BitLength(4 * v) + 1;
    assert BitLength(16 * v) == BitLength(8 * v) + 1;
    assert BitLength(32 * v) == BitLength(16 * v) + 1;
    assert BitLength(64 * v) == BitLength(32 * v) + 1;
    assert BitLength(128 * v) == BitLength(64 * v) + 1;
  }

  lemma {:induction false} BitLengthDrop(v: nat)
    requires v >= 0x100
    ensures BitLength(v) == BitLength(v / 0x100) + 8
  {
    var a, b := v / 2, v / 4;
    var c, d := v / 8, v / 16;
    var e, f, g := v / 32, v / 64, v / 128;
    assert a / 2 == b && b / 2 == c && c / 2 == d && d / 2 == e && e / 2 == f && f / 2 == g && g / 2 == v / 0x100;
    assert BitLength(f) == 2 + BitLength(v / 0x100);
    assert BitLength(d) == 2 + BitLength(f);
    assert BitLength(b) == 2 + BitLength(d);
  }

  lemma {:induction false} BitLengthMonotone(x: nat, y: nat)
    requires x <= y
    ensures BitLength(x) <= BitLength(y)
  {
    if x > 0 {
      BitLengthMonotone(x / 2, y / 2);
    }
  }

  lemma {:induction false} OneByte(v: nat)
    requires v < 0x100
    ensures BitLength(v) <= 8 && (BitLength(v) == 8 <==> v >= 0x80)
  {
    assert Pow2(7) == 0x80 && Pow2(8) == 0x100;
    BitLengthBelow(v, 8);
    if v < 0x80 {
      BitLengthBelow(v, 7);
    } else {
      BitLengthBounds(v);
      if BitLength(v) < 8 {
        Pow2Monotone(BitLength(v), 7);
      }
    }
  }

  // Each further byte adds one to the size.
  lemma {:induction false} SizeStep(v: nat)
    ensures Size(v) == if v < 0x80 then 1 else if v < 0x100 then 2 else Size(v / 0x100) + 1
  {
    if v < 0x100 {
      OneByte(v);
    } else {
      BitLengthDrop(v);
    }
  }

  // Values below 2^23 by size.
  lemma {:induction false} SmallSizes(v: nat)
    requires v > 0
    ensures Size(v) == 1 <==> v < 0x80
    ensures Size(v) <= 2 <==> v < 0x8000
    ensures Size(v) <= 3 <==> v < 0x80_0000
  {
    SizeStep(v);
    SizeStep(v / 0x100);
    SizeStep(v / 0x1_0000);
    assert (v / 0x100) / 0x100 == v / 0x1_0000;
  }

  lemma {:induction false} MantissaDrop(v: nat)
    requires v >= 0x80_0000
    ensures Size(v) == Size(v / 0x100) + 1 && Mantissa(v) == Mantissa(v / 0x100)
  {
    SmallSizes(v);
    BitLengthDrop(v);
    var w := v / 0x100;
    assert Down(v, Size(v) - 3) == Down(w, Size(w) - 3);
    assert Up(w, 0) == Down(w, 0);
  }

  // A nonzero mantissa has its top bit among bits 15 to 22.
  lemma {:induction false} MantissaBounds(v: nat)
    requires v > 0
    ensures 0x8000 <= Mantissa(v) < 0x80_0000
  {
    SmallSizes(v);
    if v >= 0x80_0000 {
      MantissaDrop(v);
      MantissaBounds(v / 0x100);
    } else {
      assert Up(v, 1) == 0x100 * v && Up(v, 2) == 0x1_0000 * v;
    }
  }

  lemma {:induction false} SizeUp(v: nat, b: nat)
    requires v > 0
    ensures Size(Up(v, b)) == Size(v) + b
  {
    if b > 0 {
      SizeUp(v, b - 1);
      UpPositive(v, b - 1);
      BitLengthTimes256(Up(v, b - 1));
    }
  }

  // A 256-bit value has a size of at most 33.
  lemma {:induction false} SizeLimit(v: nat)
    requires 0 < v < LIMIT
    ensures Size(v) <= 33
  {
    LimitInBytes();
    SizeUp(1, 32);
    SmallSizes(1);
    BitLengthMonotone(v, LIMIT);
  }

  // ---- The codec ----

  // How many low bytes encoding drops.
  function Dropped(v: nat): nat {
    if Size(v) <= 3 then 0 else Size(v) - 3
  }

  // Decoding an encoding clears the dropped bytes and nothing else.
  lemma {:induction false} DecodeEncode(v: nat)
    requires v < LIMIT
    ensures Encode(v) < U32
    ensures Decode(Encode(v)) == Truncated(v) <= v
  {
    var j := Dropped(v);
    Adjoint(Down(v, j), v, j);
    if v == 0 {
      assert Decode(0) == Down(0, 3) == 0;
    } else {
      var n, m := Size(v), Mantissa(v);
      MantissaBounds(v);
      SizeLimit(v);
      if n <= 3 {
        SmallSizes(v);
        DownUp(v, 3 - n);
      } else {
        SmallMod(Up(m, n - 3), LIMIT);
      }
    }
  }

  // v with the bytes cleared that encoding drops.
  function Truncated(v: nat): nat {
    Up(Down(v, Dropped(v)), Dropped(v))
  }

  lemma {:induction false} TruncationError(v: nat)
    ensures Truncated(v) <= v && (v - Truncated(v)) * 0x8000 <= v
  {
    var j := Dropped(v);
    Adjoint(Down(v, j), v, j);
    if v > 0 && j > 0 {
      var m := Down(v, j);
      MantissaBounds(v);
      Adjoint(m + 1, v, j);
      UpAdd(m, 1, j);
      UpMonotone(0x8000, m, j);
      UpScale(0x8000, j);
      var t, p := Truncated(v), Up(1, j);
      assert v - t < p && 0x8000 * p <= t;
    }
  }

  // Encoding rounds down, by less than one part in 2^15.
  lemma {:induction false} RoundsDown(v: nat)
    requires v < LIMIT
    ensures Decode(Encode(v)) <= v
    ensures (v - Decode(Encode(v))) * 0x8000 <= v
  {
    DecodeEncode(v);
    TruncationError(v);
  }

  lemma {:induction false} UpScale(v: nat, b: nat)
    ensures Up(v, b) == v * Up(1, b)
  {
    if b > 0 {
      UpScale(v, b - 1);
      assert v * (0x100 * Up(1, b - 1)) == 0x100 * (v * Up(1, b - 1));
    }
  }

  // Every decoded target is a 23-bit mantissa followed by zero bytes.
  lemma {:induction false} DecodedForm(bits: nat) returns (m: nat, i: nat)
    requires bits < U32
    ensures m < 0x80_0000 && Decode(bits) == Up(m, i)
  {
    var size, word := bits / SIZE_UNIT, bits % SIZE_UNIT;
    if size <= 3 || word > 0x7F_FFFF {
      return Decode(bits), 0;
    }
    i := (size - 3) % 32;
    LimitInBytes();
    UpPositive(1, 32 - i);
    m := word % Up(1, 32 - i);
    UpResidue(word, i, 32 - i);
    ModAtMost(word, Up(1, 32 - i));
  }

  lemma ModAtMost(x: nat, d: nat)
    requires d > 0
    ensures x % d <= x
  {
    DivMod(x, d);
    MulMonotone(d, 0, x / d);
  }

  lemma {:induction false} UpResidue(w: nat, i: nat, k: nat)
    ensures Up(1, k) > 0 && Up(1, i + k) > 0
    ensures Up(w, i) % Up(1, i + k) == Up(w % Up(1, k), i)
  {
    UpPositive(1, k);
    UpPositive(1, i + k);
    if i > 0 {
      UpResidue(w, i - 1, k);
      TimesResidue(Up(w, i - 1), Up(1, i - 1 + k));
    }
  }

  lemma TimesResidue(x: nat, d: nat)
    requires d > 0
    ensures (0x100 * x) % (0x100 * d) == 0x100 * (x % d)
  {
    DivMod(x, d);
    var q, r := x / d, x % d;
    assert q * (0x100 * d) == 0x100 * (q * d);
    DivModUnique(0x100 * x, 0x100 * d, q, 0x100 * r);
  }

  lemma {:induction false} TruncatedGreatest(v: nat, m: nat, i: nat)
    requires m < 0x80_0000 && Up(m, i) <= v
    ensures Up(m, i) <= Truncated(v)
  {
    var j := Dropped(v);
    if i >= j {
      UpUp(m, i - j, j);
      Adjoint(Up(m, i - j), v, j);
      UpMonotone(Up(m, i - j), Down(v, j), j);
    } else {
      MantissaBounds(v);
      UpMonotone(m, 0x80_0000, i);
      UpUp(0x8000, 1, i);
      UpLonger(0x8000, i + 1, j);
      UpMonotone(0x8000, Mantissa(v), j);
    }
  }

  // Encoding is the best lower approximation: no u32 decodes to a larger target
  // that is still at most v.
  lemma {:induction false} GreatestLowerTarget(v: nat, bits: nat)
    requires v < LIMIT && bits < U32 && Decode(bits) <= v
    ensures Decode(bits) <= Decode(Encode(v))
  {
    DecodeEncode(v);
    var m, i := DecodedForm(bits);
    TruncatedGreatest(v, m, i);
  }

  // Re-encoding a decoded encoding changes nothing.
  lemma {:induction false} EncodeStable(v: nat)
    requires v < LIMIT
    ensures Encode(Decode(Encode(v))) == Encode(v)
  {
    DecodeEncode(v);
    var j, m := Dropped(v), Mantissa(v);
    if v > 0 && j > 0 {
      MantissaBounds(v);
      SmallSizes(m);
      SizeUp(m, j);
      UpPositive(m, j);
      DownUp(m, j);
    }
  }

  lemma {:induction false} MantissaMonotone(x: nat, y: nat)
    requires 0 < x <= y && Size(x) == Size(y)
    ensures Mantissa(x) <= Mantissa(y)
  {
    if Size(x) <= 3 {
      UpMonotone(x, y, 3 - Size(x));
    } else {
      var b := Size(x) - 3;
      Adjoint(Down(x, b), x, b);
      Adjoint(Down(x, b), y, b);
    }
  }

  lemma {:induction false} CodesMonotone(x: nat, y: nat)
    requires x <= y
    ensures Encode(x) <= Encode(y)
  {
    if x > 0 {
      MantissaBounds(x);
      MantissaBounds(y);
      BitLengthMonotone(x, y);
      if Size(x) == Size(y) {
        MantissaMonotone(x, y);
      }
    }
  }

  // Order is preserved, by the u32 codes and by the targets they decode to.
  lemma {:induction false} EncodeMonotone(x: nat, y: nat)
    requires x <= y < LIMIT
    ensures Encode(x) <= Encode(y)
    ensures Decode(Encode(x)) <= Decode(Encode(y))
  {
    CodesMonotone(x, y);
    DecodeEncode(x);
    GreatestLowerTarget(y, Encode(x));
  }

  // ---- What the codes stand for ----

  // The target of a size byte and a 24-bit mantissa: the mantissa scaled to `size`
  // bytes, zero when bit 23 would make it negative, in 256 bits.
  function TargetOf(size: nat, mant: nat): nat {
    if size >= 3 && mant >= 0x80_0000 then 0
    else if size <= 3 then
      Pow2Positive(8 * (3 - size));
      mant / Pow2(8 * (3 - size))
    else (mant * Pow2(8 * (size - 3) % 256)) % LIMIT
  }

  // Every code means what its size byte and mantissa say.
  lemma {:induction false} DecodeMeaning(size: nat, mant: nat)
    requires mant < 0x100_0000
    ensures Decode(size * 0x100_0000 + mant) == TargetOf(size, mant)
  {
    DivModUnique(size * 0x100_0000 + mant, 0x100_0000, size, mant);
    if size <= 3 {
      DownPow2(mant, 3 - size);
      SmallDown(mant, 3 - size);
    } else {
      ShiftInBytes(mant, size - 3);
    }
  }

  lemma CodeMeaning(bits: nat)
    ensures Decode(bits) == TargetOf(bits / 0x100_0000, bits % 0x100_0000)
  {
    DecodeMeaning(bits / 0x100_0000, bits % 0x100_0000);
  }

  lemma SmallDown(mant: nat, b: nat)
    requires mant < 0x100_0000
    ensures Down(mant, b) > 0x7F_FFFF <==> b == 0 && mant >= 0x80_0000
  {
    if b > 0 {
      DownAtMost(mant / 0x100, b - 1);
    }
  }

  lemma {:induction false} DownAtMost(v: nat, b: nat)
    ensures Down(v, b) <= v
  {
    if b > 0 {
      DownAtMost(v / 0x100, b - 1);
    }
  }

  // A code read as size s and mantissa m stands for v: v has s bytes, the sign bit
  // included, and m is its three leading ones.
  ghost predicate Stands(s: nat, m: nat, v: nat) {
    && s >= 1
    && (s > 1 ==> Pow2(8 * (s - 1) - 1) <= v)
    && v < Pow2(8 * s - 1)
    && Pow2(8 * s) > 0 && m == v * Pow2(24) / Pow2(8 * s)
  }

  lemma {:induction false} EncodeMeaning(v: nat)
    requires v > 0
    ensures Stands(Encode(v) / 0x100_0000, Encode(v) % 0x100_0000, v)
  {
    var s, m := Size(v), Mantissa(v);
    MantissaBounds(v);
    DivModUnique(Encode(v), 0x100_0000, s, m);
    SizeBounds(v);
    LeadingBytes(v);
  }

  lemma {:induction false} SizeBounds(v: nat)
    requires v > 0
    ensures Size(v) > 1 ==> Pow2(8 * (Size(v) - 1) - 1) <= v
    ensures v < Pow2(8 * Size(v) - 1)
  {
    var n, s := BitLength(v), Size(v);
    assert 8 * (s - 1) <= n <= 8 * s - 1;
    PowerAbove(v, n, 8 * s - 1);
    if s > 1 {
      PowerBelow(v, n, 8 * (s - 1) - 1);
    }
  }

  lemma {:induction false} PowerAbove(v: nat, n: nat, hi: nat)
    requires n == BitLength(v) <= hi
    ensures v < Pow2(hi)
  {
    BitLengthBounds(v);
    Pow2Monotone(n, hi);
  }

  lemma {:induction false} PowerBelow(v: nat, n: nat, lo: nat)
    requires v > 0 && n == BitLength(v) && lo < n
    ensures Pow2(lo) <= v
  {
    BitLengthBounds(v);
    Pow2Monotone(lo, n - 1);
  }

  lemma {:induction false} LeadingBytes(v: nat)
    requires v > 0
    ensures Pow2(8 * Size(v)) > 0 && Mantissa(v) == v * Pow2(24) / Pow2(8 * Size(v))
  {
    var s := Size(v);
    Pow2Positive(8 * s);
    Pow2Positive(24);
    if s <= 3 {
      UpPow2(v, 3 - s);
      Pow2Add(8 * (3 - s), 8 * s);
      Quotient(v * Pow2(8 * (3 - s)), Pow2(8 * s), v * Pow2(24));
    } else {
      DownPow2(v, s - 3);
      Pow2Add(8 * (s - 3), 24);
      DivScaled(v, Pow2(8 * (s - 3)), Pow2(24));
    }
  }

  lemma Quotient(q: nat, d: nat, x: nat)
    requires d > 0 && x == q * d
    ensures x / d == q
  {
    DivModUnique(x, d, q, 0);
  }

  lemma DivScaled(v: nat, d: nat, k: nat)
    requires d > 0 && k > 0
    ensures d * k > 0 && (v * k) / (d * k) == v / d
  {
    MulPositive(d, k);
    DivMod(v, d);
    var q, r := v / d, v % d;
    MulStrict(k, r, d);
    assert v * k == q * (d * k) + r * k;
    DivModUnique(v * k, d * k, q, r * k);
  }

  // ---- The source's two functions over four limbs ----

  method FromCompactTargetBits(bits: nat) returns (r: Limbs)
    requires bits < U32
    ensures |r| == 4 && Value(r) == Decode(bits)
    ensures Value(r) == TargetOf(bits / 0x100_0000, bits % 0x100_0000)
  {
    var unshifted := bits / SIZE_UNIT;
    var word: Word := bits % SIZE_UNIT;
    var mant: Word, expt := word, 0;
    if unshifted <= 3 {
      mant := DropBytes(word, 3 - unshifted);
    } else {
      expt := 8 * (unshifted - 3);
    }
    r := Signed(mant, expt / 8);
    assert Value(r) == Decode(bits);
    CodeMeaning(bits);
  }

  // The shifted mantissa, or zero for a negative one.
  method Signed(mant: Word, b: nat) returns (r: Limbs)
    ensures |r| == 4 && Value(r) == if mant > 0x7F_FFFF then 0 else Up(mant, b % 32) % LIMIT
  {
    if mant > 0x7F_FFFF {
      r := Zeros(4);
    } else {
      r := ShiftBytes(mant, b);
    }
  }

  // `w >> 8 b` on a word.
  method DropBytes(w: Word, b: nat) returns (r: Word)
    requires b <= 3
    ensures r == Down(w, b)
  {
    DownPow2(w, b);
    r := ShiftRight(w, 8 * b);
  }

  // from_u64(mant) << 8 b on four limbs.
  method ShiftBytes(mant: Word, b: nat) returns (r: Limbs)
    ensures |r| == 4 && Value(r) == Up(mant, b % 32) % LIMIT
  {
    var lost;
    r, lost := OverflowingShl(FromWord(mant, 4), 8 * b);
    LimitIsModulus();
    ShiftInBytes(mant, b);
  }

  lemma {:induction false} ShiftInBytes(mant: nat, b: nat)
    ensures mant * Pow2((8 * b) % 256) == Up(mant, b % 32)
  {
    assert (8 * b) % 256 == 8 * (b % 32);
    UpPow2(mant, b % 32);
  }

  // The size in whole bytes and the mantissa before renormalisation.
  function ByteSize(v: nat): nat {
    (BitLength(v) + 7) / 8
  }

  function FirstMantissa(v: nat): nat {
    if ByteSize(v) <= 3 then Up(v, 3 - ByteSize(v)) else Down(v, ByteSize(v) - 3)
  }

  method CompactTargetBits(x: Limbs) returns (result: nat)
    requires |x| == 4
    ensures result == Encode(Value(x))
    ensures result < U32
    ensures if Value(x) == 0 then result == 0 else Stands(result / 0x100_0000, result % 0x100_0000, Value(x))
  {
    var bits := Bits(x);
    var size := (bits + 7) / 8;
    var compact := TopBytes(x, size);
    Assembled(Value(x));
    if (compact / 0x80_0000) % 2 != 0 {
      compact := compact / 0x100;
      size := size + 1;
    }
    JoinSize(size, compact);
    result := Or(compact, size * SIZE_UNIT);
    InRange(x);
    if Value(x) > 0 {
      EncodeMeaning(Value(x));
    }
  }

  lemma {:induction false} Assembled(v: nat)
    ensures var c, n := FirstMantissa(v), ByteSize(v);
      if (c / 0x80_0000) % 2 != 0 then c / 0x100 < SIZE_UNIT && Encode(v) == (n + 1) * SIZE_UNIT + c / 0x100
      else c < SIZE_UNIT && Encode(v) == n * SIZE_UNIT + c
  {
    Renormalise(v);
  }

  lemma {:induction false} FirstMantissaBound(v: nat)
    ensures FirstMantissa(v) < SIZE_UNIT
  {
    Renormalise(v);
  }

  // The three most significant bytes, as a u32.
  method TopBytes(x: Limbs, size: nat) returns (compact: nat)
    requires |x| == 4 && size == ByteSize(Value(x)) <= 32
    ensures compact == FirstMantissa(Value(x))
  {
    if size <= 3 {
      SmallTarget(x);
      compact := ShiftLeft(x[0], 8 * (3 - size)) % U32;
    } else {
      var bn := Shr(x, 8 * (size - 3));
      LargeTarget(Value(x), bn);
      compact := bn[0] % U32;
    }
  }

  lemma {:induction false} InRange(x: Limbs)
    requires |x| == 4
    ensures Encode(Value(x)) < U32
  {
    LimitIsModulus();
    ValueBound(x);
    DecodeEncode(Value(x));
  }

  lemma {:induction false} SmallTarget(x: Limbs)
    requires |x| == 4 && ByteSize(Value(x)) <= 3
    ensures ShiftLeft(x[0], 8 * (3 - ByteSize(Value(x)))) % U32 == FirstMantissa(Value(x))
  {
    var v, b := Value(x), 3 - ByteSize(Value(x));
    FirstMantissaBound(v);
    UpPositive(v, b);
    LowWord(x);
    UpPow2(v, b);
    SmallMod(FirstMantissa(v), BASE);
  }

  lemma {:induction false} LargeTarget(v: nat, bn: Limbs)
    requires |bn| > 0 && ByteSize(v) > 3
    requires Pow2(8 * (ByteSize(v) - 3)) > 0 && Value(bn) == v / Pow2(8 * (ByteSize(v) - 3))
    ensures bn[0] % U32 == FirstMantissa(v)
  {
    FirstMantissaBound(v);
    DownPow2(v, ByteSize(v) - 3);
    LowWord(bn);
  }

  // The size byte goes above the 24-bit mantissa.
  lemma {:induction false} JoinSize(size: nat, compact: nat)
    requires compact < SIZE_UNIT
    ensures Or(compact, size * SIZE_UNIT) == size * SIZE_UNIT + compact
  {
    TwoTo8();
    Pow2Add(8, 8);
    Pow2Add(16, 8);
    OrCommutes(compact, size * SIZE_UNIT);
    ModAddMultiple(size, SIZE_UNIT, 0);
    OrDisjoint(size * SIZE_UNIT, compact, 24);
  }

  lemma {:induction false} ByteSizeStep(v: nat)
    requires v > 0
    ensures ByteSize(v) == ByteSize(v / 0x100) + 1
  {
    if v < 0x100 {
      OneByte(v);
    } else {
      BitLengthDrop(v);
    }
  }

  lemma {:induction false} FirstDrop(v: nat)
    requires v >= 0x100_0000
    ensures ByteSize(v) == ByteSize(v / 0x100) + 1 && FirstMantissa(v) == FirstMantissa(v / 0x100)
  {
    var w := v / 0x100;
    ByteSizeStep(v);
    ByteSizeStep(w);
    ByteSizeStep(w / 0x100);
    ByteSizeStep(w / 0x100 / 0x100);
    assert Down(v, ByteSize(v) - 3) == Down(w, ByteSize(w) - 3);
    assert Up(w, 0) == Down(w, 0);
  }

  // Bit 23 of the first mantissa is set exactly when a byte must be added.
  lemma {:induction false} Renormalise(v: nat)
    ensures FirstMantissa(v) < SIZE_UNIT
    ensures v == 0 ==> FirstMantissa(v) == 0 && ByteSize(v) == 0
    ensures v > 0 && FirstMantissa(v) < 0x80_0000 ==> ByteSize(v) == Size(v) && FirstMantissa(v) == Mantissa(v)
    ensures FirstMantissa(v) >= 0x80_0000 ==>
      v > 0 && ByteSize(v) + 1 == Size(v) && FirstMantissa(v) / 0x100 == Mantissa(v)
  {
    if v >= 0x100_0000 {
      FirstDrop(v);
      MantissaDrop(v);
      Renormalise(v / 0x100);
    } else if v > 0 {
      RenormaliseSmall(v);
    }
  }

  lemma {:induction false} RenormaliseSmall(v: nat)
    requires 0 < v < 0x100_0000
    ensures FirstMantissa(v) < SIZE_UNIT
    ensures FirstMantissa(v) < 0x80_0000 ==> ByteSize(v) == Size(v) && FirstMantissa(v) == Mantissa(v)
    ensures FirstMantissa(v) >= 0x80_0000 ==> ByteSize(v) + 1 == Size(v) && FirstMantissa(v) / 0x100 == Mantissa(v)
  {
    SmallSizes(v);
    SmallByteSizes(v);
    assert Up(v, 1) == 0x100 * v && Up(v, 2) == 0x1_0000 * v;
    assert Down(v, 1) == v / 0x100;
    if v >= 0x80_0000 {
      MantissaDrop(v);
      SmallSizes(v / 0x100);
    }
  }

  lemma {:induction false} SmallByteSizes(v: nat)
    requires 0 < v < 0x100_0000
    ensures ByteSize(v) == if v < 0x100 then 1 else if v < 0x1_0000 then 2 else 3
  {
    ByteSizeStep(v);
    if v >= 0x100 {
      ByteSizeStep(v / 0x100);
      if v >= 0x1_0000 {
        ByteSizeStep(v / 0x100 / 0x100);
      }
    }
    assert ByteSize(0) == 0;
  }
}
