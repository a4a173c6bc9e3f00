/**
 Addition, subtraction and comparison of limb arrays (`construct_uint!`),
 proved against the integers they denote for every number of limbs.
 */
module UintLinear {
  import opened Arith
  import opened Words
  import opened Limbs

  function Bit(b: bool): nat {
    if b then 1 else 0
  }

  // u64::overflowing_add
  function OverflowingAddWord(lhs: Word, rhs: Word): (Word, bool) {
    ((lhs + rhs) % BASE, lhs + rhs >= BASE)
  }

  // u64::overflowing_sub
  function OverflowingSubWord(lhs: Word, rhs: Word): (Word, bool) {
    ((lhs - rhs) % BASE, lhs < rhs)
  }

  // Full adder: the two partial carries never fire together, so `!=` is `or`.
  function CarryingAdd(lhs: Word, rhs: Word, carry: bool): (r: (Word, bool))
    ensures r.0 + Bit(r.1) * BASE == lhs + rhs + Bit(carry)
  {
    var (a, b) := OverflowingAddWord(lhs, rhs);
    var (c, d) := OverflowingAddWord(a, Bit(carry));
    (c, b != d)
  }

  function BorrowingSub(lhs: Word, rhs: Word, borrow: bool): (r: (Word, bool))
    ensures r.0 - Bit(r.1) * BASE == lhs - rhs - Bit(borrow)
  {
    var (a, b) := OverflowingSubWord(lhs, rhs);
    var (c, d) := OverflowingSubWord(a, Bit(borrow));
    (c, b != d)
  }

  // What an addition with carry-out must return.
  ghost predicate IsSum(x: nat, y: nat, n: nat, r: Limbs, carry: bool) {
    |r| == n && Value(r) + Bit(carry) * Modulus(n) == x + y
  }

  method OverflowingAdd(a: Limbs, b: Limbs) returns (r: Limbs, carry: bool)
    requires |a| == |b|
    ensures IsSum(Value(a), Value(b), |a|, r, carry)
  {
    var self := new Word[|a|](i requires 0 <= i < |a| => a[i]);
    carry := false;
    for i := 0 to |a|
      invariant self[i..] == a[i..]
      invariant Value(self[..i]) + Bit(carry) * Modulus(i) == Value(a[..i]) + Value(b[..i])
    {
      ghost var done, before := self[..i], carry;
      assert self[i] == self[i..][0] == a[i];
      assert a[i..][1..] == a[i + 1..];
      var (w, carryOut) := CarryingAdd(self[i], b[i], carry);
      self[i] := w;
      carry := carryOut;
      assert self[i + 1..] == a[i + 1..];
      assert self[..i] == done;
      assert self[..][..i] == self[..i] && self[..][..i + 1] == self[..i + 1];
      AddStep(self[..], a, b, i, before, carry);
    }
    assert self[..] == self[..|a|] && a[..|a|] == a && b[..|a|] == b;
    return self[..], carry;
  }

  lemma {:induction false} AddStep(r: Limbs, a: Limbs, b: Limbs, i: nat, cin: bool, cout: bool)
    requires i < |r| == |a| == |b|
    requires Value(r[..i]) + Bit(cin) * Modulus(i) == Value(a[..i]) + Value(b[..i])
    requires r[i] + Bit(cout) * BASE == a[i] + b[i] + Bit(cin)
    ensures Value(r[..i + 1]) + Bit(cout) * Modulus(i + 1) == Value(a[..i + 1]) + Value(b[..i + 1])
  {
    ValueSnoc(r, i);
    ValueSnoc(a, i);
    ValueSnoc(b, i);
    CarryStep(Value(r[..i]), Value(a[..i]), Value(b[..i]), Bit(cin), Bit(cout), r[i], a[i], b[i], Modulus(i), BASE);
  }

  method OverflowingAddU64(a: Limbs, d: Word) returns (r: Limbs, carry: bool)
    requires |a| > 0
    ensures IsSum(Value(a), d, |a|, r, carry)
  {
    var n := |a|;
    var self := new Word[n](i requires 0 <= i < |a| => a[i]);
    assert self[..] == a;
    var (w, c) := OverflowingAddWord(self[0], d);
    self[0], carry := w, c;
    assert self[..] == a[0 := w];
    FirstStep(a, d, w, carry);
    var i := 1;
    while i < n && carry
      invariant 1 <= i <= n
      invariant Value(self[..]) + Bit(carry) * Modulus(i) == Value(a) + d
    {
      ghost var before := self[..];
      var (next, carryOut) := OverflowingAddWord(self[i], 1);
      self[i], carry := next, carryOut;
      assert self[..] == before[i := next];
      RippleStep(before, i, next, carry);
      i := i + 1;
    }
    return self[..], carry;
  }

  lemma {:induction false} FirstStep(s: Limbs, d: Word, w: Word, carry: bool)
    requires |s| > 0 && w + Bit(carry) * BASE == s[0] + d
    ensures Value(s[0 := w]) + Bit(carry) * Modulus(1) == Value(s) + d
  {
    assert s[0 := w][1..] == s[1..];
    assert Modulus(1) == BASE * Modulus(0);
  }

  lemma {:induction false} RippleStep(s: Limbs, i: nat, w: Word, carry: bool)
    requires i < |s| && w + Bit(carry) * BASE - s[i] == 1
    ensures Value(s[i := w]) + Bit(carry) * Modulus(i + 1) == Value(s) + Modulus(i)
  {
    ValueUpdate(s, i, w);
    CarryStep(0, 0, 0, 0, Bit(carry), w - s[i], 1, 0, Modulus(i), BASE);
  }

  // What a subtraction with borrow-out must return.
  ghost predicate IsDifference(x: nat, y: nat, n: nat, r: Limbs, borrow: bool) {
    |r| == n && Value(r) == x - y + Bit(borrow) * Modulus(n) && (borrow <==> x < y)
  }

  method OverflowingSub(a: Limbs, b: Limbs) returns (r: Limbs, borrow: bool)
    requires |a| == |b|
    ensures IsDifference(Value(a), Value(b), |a|, r, borrow)
  {
    var self := new Word[|a|](i requires 0 <= i < |a| => a[i]);
    borrow := false;
    for i := 0 to |a|
      invariant self[i..] == a[i..]
      invariant Value(self[..i]) - Bit(borrow) * Modulus(i) == Value(a[..i]) - Value(b[..i])
    {
      ghost var done, before := self[..i], borrow;
      assert self[i] == self[i..][0] == a[i];
      assert a[i..][1..] == a[i + 1..];
      var (w, borrowOut) := BorrowingSub(self[i], b[i], borrow);
      self[i] := w;
      borrow := borrowOut;
      assert self[i + 1..] == a[i + 1..];
      assert self[..i] == done;
      assert self[..][..i] == self[..i] && self[..][..i + 1] == self[..i + 1];
      SubStep(self[..], a, b, i, before, borrow);
    }
    r := self[..];
    assert r == self[..|a|] && a[..|a|] == a && b[..|a|] == b;
    BorrowMeansLess(Value(a), b, r, borrow);
  }

  lemma {:induction false} BorrowMeansLess(x: nat, b: Limbs, r: Limbs, borrow: bool)
    requires |r| == |b| && Value(r) - Bit(borrow) * Modulus(|b|) == x - Value(b)
    ensures borrow <==> x < Value(b)
  {
    ValueBound(r);
  }

  lemma {:induction false} SubStep(r: Limbs, a: Limbs, b: Limbs, i: nat, bin: bool, bout: bool)
    requires i < |r| == |a| == |b|
    requires Value(r[..i]) - Bit(bin) * Modulus(i) == Value(a[..i]) - Value(b[..i])
    requires r[i] - Bit(bout) * BASE == a[i] - b[i] - Bit(bin)
    ensures Value(r[..i + 1]) - Bit(bout) * Modulus(i + 1) == Value(a[..i + 1]) - Value(b[..i + 1])
  {
    ValueSnoc(r, i);
    ValueSnoc(a, i);
    ValueSnoc(b, i);
    BorrowStep(Value(r[..i]), Value(a[..i]), Value(b[..i]), Bit(bin), Bit(bout), r[i], a[i], b[i], Modulus(i), BASE);
  }

  // The `-` operator, whose debug assertion rules out a borrow.
  method Sub(a: Limbs, b: Limbs) returns (r: Limbs)
    requires |a| == |b|
    ensures IsDifference(Value(a), Value(b), |a|, r, Value(a) < Value(b))
  {
    var borrow;
    r, borrow := OverflowingSub(a, b);
  }

  // Saturation clamps to the ends of the range.
  method SaturatingSub(a: Limbs, b: Limbs) returns (r: Limbs)
    requires |a| == |b|
    ensures |r| == |a|
    ensures Value(r) == if Value(a) < Value(b) then 0 else Value(a) - Value(b)
  {
    var diff, borrow := OverflowingSub(a, b);
    return if borrow then Zeros(|a|) else diff;
  }

  method SaturatingAdd(a: Limbs, b: Limbs) returns (r: Limbs)
    requires |a| == |b|
    ensures |r| == |a|
    ensures Value(r) == if Value(a) + Value(b) < Modulus(|a|) then Value(a) + Value(b) else Modulus(|a|) - 1
  {
    var sum, carry := OverflowingAdd(a, b);
    ValueBound(sum);
    MaxValue(|a|);
    return if carry then seq(|a|, i => BASE - 1) else sum;
  }

  lemma {:induction false} MaxValue(n: nat)
    ensures Value(seq(n, i => BASE - 1)) == Modulus(n) - 1
  {
    if n > 0 {
      MaxValue(n - 1);
      assert seq<Word>(n, i => BASE - 1)[1..] == seq<Word>(n - 1, i => BASE - 1);
    }
  }

  datatype Ordering = Less | Equal | Greater

  // Ord::cmp: lexicographic from the most significant limb down.
  function Compare(a: Limbs, b: Limbs): (o: Ordering)
    requires |a| == |b|
    ensures o.Less? <==> Value(a) < Value(b)
    ensures o.Equal? <==> Value(a) == Value(b)
    ensures o.Greater? <==> Value(a) > Value(b)
  {
    if |a| == 0 then Equal else
      var k := |a| - 1;
      assert a[..k + 1] == a && b[..k + 1] == b;
      CompareStep(a, b, k);
      if a[k] < b[k] then Less
      else if a[k] > b[k] then Greater
      else Compare(a[..k], b[..k])
  }

  lemma {:induction false} CompareStep(a: Limbs, b: Limbs, k: nat)
    requires |a| == |b| == k + 1
    ensures a[k] < b[k] ==> Value(a) < Value(b)
    ensures a[k] > b[k] ==> Value(a) > Value(b)
    ensures a[k] == b[k] ==> Value(a) - Value(b) == Value(a[..k]) - Value(b[..k])
  {
    assert a[..k + 1] == a && b[..k + 1] == b;
    ValueSnoc(a, k);
    ValueSnoc(b, k);
    ValueBound(a[..k]);
    ValueBound(b[..k]);
    if a[k] < b[k] {
      LeadingDigit(Value(a[..k]), Value(b[..k]), a[k], b[k], Modulus(k));
    } else if a[k] > b[k] {
      LeadingDigit(Value(b[..k]), Value(a[..k]), b[k], a[k], Modulus(k));
    }
  }

  // PartialOrd<u64>: `n >= d` on limbs.
  predicate AtLeastWord(a: Limbs, d: Word)
    requires |a| > 0
    ensures AtLeastWord(a, d) <==> Value(a) >= d
  {
    ValueZero(a[1..]);
    assert (exists i :: 1 <= i < |a| && a[i] != 0) <==> Value(a[1..]) != 0 by {
      assert forall i :: 0 <= i < |a| - 1 ==> a[1..][i] == a[i + 1];
      assert forall i :: 1 <= i < |a| ==> a[i] == a[1..][i - 1];
    }
    (exists i :: 1 <= i < |a| && a[i] != 0) || a[0] >= d
  }

  // The one-word addition and the general one agree, carry included.
  lemma {:induction false} AddU64Agrees(a: Limbs, d: Word, r: Limbs, carry: bool, r': Limbs, carry': bool)
    requires |a| > 0
    requires IsSum(Value(a), Value(FromWord(d, |a|)), |a|, r, carry)
    requires IsSum(Value(a), d, |a|, r', carry')
    ensures r == r' && carry == carry'
  {
    ValueBound(r);
    ValueBound(r');
    ValueInjective(r, r');
  }
}
