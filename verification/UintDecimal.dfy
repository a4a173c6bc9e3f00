/**
 Decimal printing (`Display`). The buffer of 20 n bytes is filled from the back;
 what ends up in it is the canonical decimal numeral of the value.
 */
module UintDecimal {
  import opened Arith
  import opened Words
  import opened Limbs
  import opened UintLinear
  import opened UintDiv

  function Digit(d: nat): char
    requires d < 10
  {
    '0' + d as char
  }

  predicate IsDigit(c: char) {
    '0' <= c <= '9'
  }

  // The decimal numeral of v.
  function Decimal(v: nat): string {
    if v < 10 then [Digit(v)] else Decimal(v / 10) + [Digit(v % 10)]
  }

  function DigitValue(c: char): (d: nat)
    requires IsDigit(c)
    ensures d < 10 && Digit(d) == c
  {
    (c - '0') as nat
  }

  ghost predicate AllDigits(s: string) {
    forall i :: 0 <= i < |s| ==> IsDigit(s[i])
  }

  // The number a digit string denotes.
  ghost function Parse(s: string): nat
    requires AllDigits(s)
  {
    if s == [] then 0 else
      var k := |s| - 1;
      10 * Parse(s[..k]) + DigitValue(s[k])
  }

  ghost predicate IsNumeral(s: string) {
    s != [] && AllDigits(s) && (|s| > 1 ==> s[0] != '0')
  }

  // Printed numerals read back as the number and carry no leading zero.
  lemma {:induction false} DecimalIsNumeral(v: nat)
    ensures IsNumeral(Decimal(v)) && Parse(Decimal(v)) == v
    ensures v > 0 ==> Decimal(v)[0] != '0'
  {
    if v >= 10 {
      DecimalIsNumeral(v / 10);
      assert Decimal(v)[..|Decimal(v)| - 1] == Decimal(v / 10);
    }
  }

  // There is only one numeral per number.
  lemma {:induction false} NumeralUnique(s: string)
    requires IsNumeral(s)
    ensures Decimal(Parse(s)) == s
  {
    var k := |s| - 1;
    assert s == s[..k] + [s[k]];
    if k == 0 {
      assert s[..0] == [];
    } else {
      NumeralUnique(s[..k]);
      NumeralPositive(s[..k]);
    }
  }

  lemma {:induction false} NumeralPositive(s: string)
    requires s != [] && AllDigits(s) && s[0] != '0'
    ensures Parse(s) > 0
  {
    var k := |s| - 1;
    if k > 0 {
      NumeralPositive(s[..k]);
    }
  }

  // The two-digit lookup table, a decade at a time.
  const LUT_0: string := "00010203040506070809"
  const LUT_10: string := "10111213141516171819"
  const LUT_20: string := "20212223242526272829"
  const LUT_30: string := "30313233343536373839"
  const LUT_40: string := "40414243444546474849"
  const LUT_50: string := "50515253545556575859"
  const LUT_60: string := "60616263646566676869"
  const LUT_70: string := "70717273747576777879"
  const LUT_80: string := "80818283848586878889"
  const LUT_90: string := "90919293949596979899"

  const DEC_DIGITS_LUT: string := LUT_0 + LUT_10 + LUT_20 + LUT_30 + LUT_40 + LUT_50 + LUT_60 + LUT_70 + LUT_80 + LUT_90

  // t consists of the two digits of n, of n + 1 and so on.
  ghost predicate Pairs(t: string, n: nat) {
    |t| % 2 == 0 && forall k :: 0 <= k < |t| / 2 ==> PairAt(t, n, k)
  }

  predicate PairAt(t: string, n: nat, k: nat)
    requires k < |t| / 2
  {
    t[2 * k] == Digit((n + k) / 10 % 10) && t[2 * k + 1] == Digit((n + k) % 10)
  }

  lemma PairsConcat(s: string, t: string, n: nat, m: nat)
    requires Pairs(s, n) && Pairs(t, m) && m == n + |s| / 2
    ensures Pairs(s + t, n)
  {
    forall k | 0 <= k < |s + t| / 2
      ensures PairAt(s + t, n, k)
    {
      if k < |s| / 2 {
        assert PairAt(s, n, k);
      } else {
        assert PairAt(t, m, k - |s| / 2);
      }
    }
  }

  lemma Lut0()
    ensures |LUT_0| == 20 && Pairs(LUT_0, 0)
  {
    forall k | 0 <= k < 10 ensures PairAt(LUT_0, 0, k) {
    }
  }

  lemma Lut10()
    ensures |LUT_10| == 20 && Pairs(LUT_10, 10)
  {
    forall k | 0 <= k < 10 ensures PairAt(LUT_10, 10, k) {
    }
  }

  lemma Lut20()
    ensures |LUT_20| == 20 && Pairs(LUT_20, 20)
  {
    forall k | 0 <= k < 10 ensures PairAt(LUT_20, 20, k) {
    }
  }

  lemma Lut30()
    ensures |LUT_30| == 20 && Pairs(LUT_30, 30)
  {
    forall k | 0 <= k < 10 ensures PairAt(LUT_30, 30, k) {
    }
  }

  lemma Lut40()
    ensures |LUT_40| == 20 && Pairs(LUT_40, 40)
  {
    forall k | 0 <= k < 10 ensures PairAt(LUT_40, 40, k) {
    }
  }

  lemma Lut50()
    ensures |LUT_50| == 20 && Pairs(LUT_50, 50)
  {
    forall k | 0 <= k < 10 ensures PairAt(LUT_50, 50, k) {
    }
  }

  lemma Lut60()
    ensures |LUT_60| == 20 && Pairs(LUT_60, 60)
  {
    forall k | 0 <= k < 10 ensures PairAt(LUT_60, 60, k) {
    }
  }

  lemma Lut70()
    ensures |LUT_70| == 20 && Pairs(LUT_70, 70)
  {
    forall k | 0 <= k < 10 ensures PairAt(LUT_70, 70, k) {
    }
  }

  lemma Lut80()
    ensures |LUT_80| == 20 && Pairs(LUT_80, 80)
  {
    forall k | 0 <= k < 10 ensures PairAt(LUT_80, 80, k) {
    }
  }

  lemma Lut90()
    ensures |LUT_90| == 20 && Pairs(LUT_90, 90)
  {
    forall k | 0 <= k < 10 ensures PairAt(LUT_90, 90, k) {
    }
  }

  lemma LutPairs()
    ensures |DEC_DIGITS_LUT| == 200 && Pairs(DEC_DIGITS_LUT, 0)
  {
    Lut0();
    Lut10();
    Lut20();
    Lut30();
    Lut40();
    Lut50();
    Lut60();
    Lut70();
    Lut80();
    Lut90();
    PairsConcat(LUT_0, LUT_10, 0, 10);
    PairsConcat(LUT_0 + LUT_10, LUT_20, 0, 20);
    PairsConcat(LUT_0 + LUT_10 + LUT_20, LUT_30, 0, 30);
    PairsConcat(LUT_0 + LUT_10 + LUT_20 + LUT_30, LUT_40, 0, 40);
    PairsConcat(LUT_0 + LUT_10 + LUT_20 + LUT_30 + LUT_40, LUT_50, 0, 50);
    PairsConcat(LUT_0 + LUT_10 + LUT_20 + LUT_30 + LUT_40 + LUT_50, LUT_60, 0, 60);
    PairsConcat(LUT_0 + LUT_10 + LUT_20 + LUT_30 + LUT_40 + LUT_50 + LUT_60, LUT_70, 0, 70);
    PairsConcat(LUT_0 + LUT_10 + LUT_20 + LUT_30 + LUT_40 + LUT_50 + LUT_60 + LUT_70, LUT_80, 0, 80);
    PairsConcat(LUT_0 + LUT_10 + LUT_20 + LUT_30 + LUT_40 + LUT_50 + LUT_60 + LUT_70 + LUT_80, LUT_90, 0, 90);
  }

  lemma LutEntry(k: nat)
    requires k < 100
    ensures |DEC_DIGITS_LUT| == 200
    ensures DEC_DIGITS_LUT[2 * k] == Digit(k / 10) && DEC_DIGITS_LUT[2 * k + 1] == Digit(k % 10)
  {
    LutPairs();
    PairOf(DEC_DIGITS_LUT, k);
  }

  lemma PairOf(t: string, k: nat)
    requires Pairs(t, 0) && k < |t| / 2 && k < 100
    ensures t[2 * k] == Digit(k / 10) && t[2 * k + 1] == Digit(k % 10)
  {
    assert PairAt(t, 0, k);
  }

  lemma DecimalPair(q: nat, r: nat)
    requires q > 0 && r < 100
    ensures Decimal(100 * q + r) == Decimal(q) + [Digit(r / 10), Digit(r % 10)]
  {
    var v := 100 * q + r;
    assert v / 10 == 10 * q + r / 10 && v % 10 == r % 10;
    assert (v / 10) / 10 == q && (v / 10) % 10 == r / 10;
  }

  lemma {:induction false} DecimalLength(v: nat, k: nat)
    requires k > 0 && v < Pow(10, k)
    ensures |Decimal(v)| <= k
  {
    assert Pow(10, 1) == 10;
    if v >= 10 {
      DecimalLength(v / 10, k - 1);
    }
  }

  lemma {:induction false} PowBaseMonotone(a: nat, b: nat, e: nat)
    requires a <= b
    ensures Pow(a, e) <= Pow(b, e)
  {
    if e > 0 {
      PowBaseMonotone(a, b, e - 1);
      MulMonotone(a, Pow(a, e - 1), Pow(b, e - 1));
      MulMonotone(Pow(b, e - 1), a, b);
    }
  }

  // Twenty decimal digits per limb are enough.
  lemma {:induction false} BufferSuffices(a: Limbs)
    requires |a| > 0
    ensures |Decimal(Value(a))| <= 20 * |a|
  {
    assert BASE < Pow(10, 20) by {
      assert Pow(10, 5) == 100000;
      PowAdd(10, 5, 5);
      PowAdd(10, 10, 10);
    }
    ValueBound(a);
    PowBaseMonotone(BASE, Pow(10, 20), |a|);
    PowPow(10, 20, |a|);
    DecimalLength(Value(a), 20 * |a|);
  }

  method Display(a: Limbs) returns (s: string)
    requires |a| > 0
    ensures s == Decimal(Value(a))
  {
    ghost var whole := Decimal(Value(a));
    BufferSuffices(a);
    var len := |a| * 20;
    var buf := new char[len](i => '\0');
    var n := a;
    var curr := len;
    assert buf[len..] == [];
    while AtLeastWord(n, 10_000)
      invariant |n| == |a| && 0 <= curr <= len
      invariant whole == Decimal(Value(n)) + buf[curr..]
      decreases Value(n)
    {
      ghost var v := Value(n);
      var rem;
      n, rem := DivRemU64(n, 10_000);
      FourDigits(v, Value(n), rem);
      curr := curr - 4;
      WritePair(buf, curr + 2, rem % 100);
      WritePair(buf, curr, rem / 100);
    }
    s := FinishDisplay(n, buf, curr, whole);
  }

  lemma {:induction false} FourDigits(v: nat, q: nat, r: nat)
    requires v >= 10_000 && IsDivision(v, 10_000, q, r)
    ensures 0 < q < v && |Decimal(v)| >= 5
    ensures Decimal(v) == Decimal(q) + [Digit(r / 100 / 10), Digit(r / 100 % 10)] + [Digit(r % 100 / 10), Digit(r % 100 % 10)]
  {
    var w := 100 * q + r / 100;
    assert v == 100 * w + r % 100;
    DecimalPair(q, r / 100);
    DecimalPair(w, r % 100);
  }

  method WritePair(buf: array<char>, at: nat, k: nat)
    requires at + 2 <= buf.Length && k < 100
    modifies buf
    ensures buf[at..] == [Digit(k / 10), Digit(k % 10)] + old(buf[at + 2..])
  {
    var d := 2 * k;
    LutEntry(k);
    ghost var printed := buf[at + 2..];
    buf[at] := DEC_DIGITS_LUT[d];
    buf[at + 1] := DEC_DIGITS_LUT[d + 1];
    assert buf[at + 2..] == printed;
    assert buf[at..] == [buf[at], buf[at + 1]] + printed;
  }

  // The last one to four digits.
  method FinishDisplay(rest: Limbs, buf: array<char>, start: nat, ghost whole: string) returns (s: string)
    requires |rest| > 0 && Value(rest) < 10_000
    requires start <= buf.Length && |whole| <= buf.Length
    requires whole == Decimal(Value(rest)) + buf[start..]
    modifies buf
    ensures s == whole
  {
    LowWord(rest);
    var n, curr := rest[0], start;
    if n >= 100 {
      DecimalPair(n / 100, n % 100);
      curr := curr - 2;
      WritePair(buf, curr, n % 100);
      n := n / 100;
    }
    ghost var printed := buf[curr..];
    assert whole == Decimal(n) + printed;
    if n < 10 {
      curr := curr - 1;
      buf[curr] := Digit(n);
      assert buf[curr + 1..] == printed;
      assert buf[curr..] == [buf[curr]] + printed;
    } else {
      curr := curr - 2;
      WritePair(buf, curr, n);
      assert Decimal(n) == [Digit(n / 10), Digit(n % 10)];
    }
    return buf[curr..];
  }
}
