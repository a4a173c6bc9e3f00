/**
 Little-endian limb arrays of any length, the number they denote, and the
 facts every operation on them uses.
 */
module Limbs {
  import opened Arith
  import opened Words

  type Limbs = seq<Word>

  function Value(s: Limbs): nat {
    if |s| == 0 then 0 else s[0] + BASE * Value(s[1..])
  }

  // 2^(64 n), the number of values n limbs can hold.
  function Modulus(n: nat): nat {
    Pow(BASE, n)
  }

  function Zeros(n: nat): (s: Limbs)
    ensures |s| == n && Value(s) == 0
    ensures forall i :: 0 <= i < n ==> s[i] == 0
  {
    if n == 0 then [] else
      var s := [0] + Zeros(n - 1);
      assert s[1..] == Zeros(n - 1);
      s
  }

  // `from_u64` at n limbs.
  function FromWord(d: Word, n: nat): (s: Limbs)
    requires n > 0
    ensures |s| == n && s[0] == d && Value(s) == d
    ensures forall i :: 0 < i < n ==> s[i] == 0
  {
    var s := [d] + Zeros(n - 1);
    assert s[1..] == Zeros(n - 1);
    s
  }

  lemma {:induction false} ModulusPositive(n: nat)
    ensures Modulus(n) > 0
  {
    PowPositive(BASE, n);
  }

  lemma {:induction false} ModulusIsPow2(n: nat)
    ensures Modulus(n) == Pow2(64 * n)
  {
    BaseIsPow2();
    PowPow(2, 64, n);
  }

  lemma {:induction false} ValueSplit(s: Limbs, k: nat)
    requires k <= |s|
    ensures Value(s) == Value(s[..k]) + Modulus(k) * Value(s[k..])
  {
    if k == 0 {
      assert s[0..] == s;
    } else {
      ValueSplit(s[1..], k - 1);
      assert s[1..][..k - 1] == s[..k][1..];
      assert s[1..][k - 1..] == s[k..];
      var v := Value(s[k..]);
      MulAssoc(BASE, Modulus(k - 1), v);
    }
  }

  lemma {:induction false} ValueSnoc(s: Limbs, i: nat)
    requires i < |s|
    ensures Value(s[..i + 1]) == Value(s[..i]) + s[i] * Modulus(i)
  {
    var t := s[..i + 1];
    ValueSplit(t, i);
    assert t[..i] == s[..i];
    assert t[i..] == [s[i]];
    assert Value([s[i]]) == s[i] + BASE * Value([s[i]][1..]);
  }

  lemma {:induction false} ValueDrop(s: Limbs, i: nat)
    requires i < |s|
    ensures Value(s[i..]) == s[i] + BASE * Value(s[i + 1..])
  {
    assert s[i..][1..] == s[i + 1..];
  }

  lemma {:induction false} ValueBound(s: Limbs)
    ensures Value(s) < Modulus(|s|)
  {
    if |s| > 0 {
      ValueBound(s[1..]);
      MulMonotone(BASE, Value(s[1..]) + 1, Modulus(|s| - 1));
    }
  }

  // The representation is unique at a given length.
  lemma {:induction false} ValueInjective(s: Limbs, t: Limbs)
    requires |s| == |t| && Value(s) == Value(t)
    ensures s == t
  {
    if |s| > 0 {
      DivModUnique(Value(s), BASE, Value(s[1..]), s[0]);
      DivModUnique(Value(t), BASE, Value(t[1..]), t[0]);
      ValueInjective(s[1..], t[1..]);
      assert s == [s[0]] + s[1..];
      assert t == [t[0]] + t[1..];
    }
  }

  lemma {:induction false} ValueZero(s: Limbs)
    ensures Value(s) == 0 <==> forall i :: 0 <= i < |s| ==> s[i] == 0
  {
    if |s| > 0 {
      ValueZero(s[1..]);
      assert forall i :: 0 < i < |s| ==> s[i] == s[1..][i - 1];
      assert forall i :: 0 <= i < |s| - 1 ==> s[1..][i] == s[i + 1];
    }
  }

  lemma {:induction false} ValueUpdate(s: Limbs, i: nat, w: Word)
    requires i < |s|
    ensures Value(s[i := w]) == Value(s) + (w - s[i]) * Modulus(i)
  {
    var t := s[i := w];
    if i == 0 {
      assert t[1..] == s[1..];
    } else {
      ValueUpdate(s[1..], i - 1, w);
      assert t[1..] == s[1..][i - 1 := w];
      MulAssoc(BASE, w - s[i], Modulus(i - 1));
      MulAssoc(w - s[i], BASE, Modulus(i - 1));
    }
  }

  // A value of one word is the low limb.
  lemma {:induction false} LowWord(s: Limbs)
    requires |s| > 0 && Value(s) < BASE
    ensures s[0] == Value(s)
  {
  }

  // A number below the modulus is its own residue, and residues are limbs.
  lemma {:induction false} ValueFromResidue(v: nat, m: nat, r: nat, k: int)
    requires m > 0 && v == r + k * m && r < m
    ensures r == v % m && k == v / m
  {
    DivModUnique(v, m, k, r);
  }
}
