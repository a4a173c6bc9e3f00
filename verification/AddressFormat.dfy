/**
 What an address is checked for, character by character: the symbols its checksum is
 taken over, and the exact condition of every verdict.
 */
module AddressFormat {
  import opened Address
  import opened Arith
  import opened Checksum
  import opened Wrappers

  // Bit b of n.
  predicate Bit(n: nat, b: nat) {
    if b == 0 then n % 2 == 1 else Bit(n / 2, b - 1)
  }

  // x and n have the same k low bits.
  ghost predicate SameBits(x: nat, n: nat, k: nat) {
    forall b :: 0 <= b < k ==> (Bit(x, b) <==> Bit(n, b))
  }

  // The symbols a checksum is taken over, place by place: the five low bits of each
  // byte of the prefix, a zero, and the charset position of each payload character.
  ghost predicate Spells(w: seq<Symbol>, prefix: string, payload: string) {
    && |w| == |prefix| + 1 + |payload|
    && (forall i :: 0 <= i < |prefix| ==> SameBits(w[i] as nat, prefix[i] as nat, 5))
    && w[|prefix|] == 0
    && (forall j :: 0 <= j < |payload| ==> CHARSET[w[|prefix| + 1 + j] as nat] == payload[j])
  }

  lemma HalfResidue(x: nat, m: nat)
    requires m > 0
    ensures x % (2 * m) == 2 * ((x / 2) % m) + x % 2
  {
    var h := x / 2;
    DivMod(h, m);
    assert (h / m) * (2 * m) == 2 * ((h / m) * m);
    DivModUnique(x, 2 * m, h / m, 2 * (h % m) + x % 2);
  }

  lemma FirstBit(x: nat, n: nat, k: nat)
    requires k > 0
    ensures SameBits(x, n, k) <==> x % 2 == n % 2 && SameBits(x / 2, n / 2, k - 1)
  {
    if SameBits(x, n, k) {
      assert Bit(x, 0) <==> Bit(n, 0);
      forall b | 0 <= b < k - 1
        ensures Bit(x / 2, b) <==> Bit(n / 2, b)
      {
        assert Bit(x, b + 1) <==> Bit(n, b + 1);
      }
    }
    if x % 2 == n % 2 && SameBits(x / 2, n / 2, k - 1) {
      forall b | 0 <= b < k
        ensures Bit(x, b) <==> Bit(n, b)
      {
        if b > 0 {
          assert Bit(x / 2, b - 1) <==> Bit(n / 2, b - 1);
        }
      }
    }
  }

  // Equal low bits are equal residues.
  lemma {:induction false} BitsAreResidue(x: nat, n: nat, k: nat)
    ensures Pow2(k) > 0 && (SameBits(x, n, k) <==> x % Pow2(k) == n % Pow2(k))
  {
    Pow2Positive(k);
    if k > 0 {
      Pow2Positive(k - 1);
      FirstBit(x, n, k);
      BitsAreResidue(x / 2, n / 2, k - 1);
      HalfResidue(x, Pow2(k - 1));
      HalfResidue(n, Pow2(k - 1));
    }
  }

  lemma SymbolBack(i: nat)
    requires i < 32
    ensures ToSymbol(i) as nat == i
  {
    assert (i as bv5) as nat == i;
  }

  lemma PrefixPlace(x: Symbol, n: nat)
    ensures x == ToSymbol(n % 32) <==> SameBits(x as nat, n, 5)
  {
    assert Pow2(5) == 32;
    BitsAreResidue(x as nat, n, 5);
    SymbolBack(n % 32);
    assert ToSymbol(x as nat) == x;
  }

  lemma PayloadPlace(x: Symbol, c: char)
    ensures CHARSET[x as nat] == c <==> InCharset(c) && x == SymbolOf(c)
  {
    CharsetIndexOf(x as nat);
    assert ToSymbol(x as nat) == x;
    if InCharset(c) && x == SymbolOf(c) {
      SymbolBack(CharsetIndex(c));
    }
  }

  // A prefix and a payload spell one word if the payload is in the charset, else none.
  lemma OneSpelling(w: seq<Symbol>, prefix: string, payload: string)
    ensures Spells(w, prefix, payload) <==>
      AllInCharset(payload) && w == PrefixSymbols(prefix) + [0] + Decode(payload)
  {
    if Spells(w, prefix, payload) {
      SpeltIsDecoded(w, prefix, payload);
    } else if AllInCharset(payload) && w == PrefixSymbols(prefix) + [0] + Decode(payload) {
      DecodedIsSpelt(w, prefix, payload);
    }
  }

  lemma SpeltIsDecoded(w: seq<Symbol>, prefix: string, payload: string)
    requires Spells(w, prefix, payload)
    ensures AllInCharset(payload) && w == PrefixSymbols(prefix) + [0] + Decode(payload)
  {
    var n := |prefix|;
    forall i | 0 <= i < n
      ensures w[..n][i] == PrefixSymbols(prefix)[i]
    {
      PrefixPlace(w[i], prefix[i] as nat);
    }
    assert w[..n] == PrefixSymbols(prefix);
    PayloadDecoded(w[n + 1..], payload);
    assert w == w[..n] + [w[n]] + w[n + 1..];
  }

  lemma PayloadDecoded(x: seq<Symbol>, payload: string)
    requires |x| == |payload| && forall j :: 0 <= j < |payload| ==> CHARSET[x[j] as nat] == payload[j]
    ensures AllInCharset(payload) && x == Decode(payload)
  {
    forall j | 0 <= j < |payload|
      ensures InCharset(payload[j]) && x[j] == SymbolOf(payload[j])
    {
      PayloadPlace(x[j], payload[j]);
    }
  }

  lemma DecodedIsSpelt(w: seq<Symbol>, prefix: string, payload: string)
    requires AllInCharset(payload) && w == PrefixSymbols(prefix) + [0] + Decode(payload)
    ensures Spells(w, prefix, payload)
  {
    var n := |prefix|;
    forall i | 0 <= i < n
      ensures SameBits(w[i] as nat, prefix[i] as nat, 5)
    {
      PrefixPlace(w[i], prefix[i] as nat);
    }
    forall j | 0 <= j < |payload|
      ensures CHARSET[w[n + 1 + j] as nat] == payload[j]
    {
      PayloadPlace(w[n + 1 + j], payload[j]);
    }
  }

  // A payload passes under a prefix if and only if together they spell a word whose
  // polymod is zero; the word is unique.
  lemma ChecksumWord(prefix: string, payload: string, w: seq<Symbol>)
    ensures Spells(w, prefix, payload) ==> (VerifyChecksum(prefix, payload) <==> PolymodOf(w) == ZERO)
    ensures VerifyChecksum(prefix, payload) <==> exists x :: Spells(x, prefix, payload) && PolymodOf(x) == ZERO
  {
    OneSpelling(w, prefix, payload);
    if VerifyChecksum(prefix, payload) {
      OneSpelling(PrefixSymbols(prefix) + [0] + Decode(payload), prefix, payload);
    } else if exists x :: Spells(x, prefix, payload) && PolymodOf(x) == ZERO {
      var x :| Spells(x, prefix, payload) && PolymodOf(x) == ZERO;
      OneSpelling(x, prefix, payload);
    }
  }

  // The prefix is protected like the payload: two prefixes whose bytes differ modulo
  // 32, all within eight places, never accept the same payload.
  lemma PrefixBurst(p: string, q: string, payload: string, k: nat, d: nat)
    requires |p| == |q| && d < |p| && (p[d] as nat) % 32 != (q[d] as nat) % 32
    requires forall i :: 0 <= i < |p| && !(k <= i < k + 8) ==> (p[i] as nat) % 32 == (q[i] as nat) % 32
    ensures !(VerifyChecksum(p, payload) && VerifyChecksum(q, payload))
  {
    if VerifyChecksum(p, payload) && VerifyChecksum(q, payload) {
      var v, w := PrefixSymbols(p) + [0] + Decode(payload), PrefixSymbols(q) + [0] + Decode(payload);
      if v[d] == w[d] {
        ToSymbolInjective((p[d] as nat) % 32, (q[d] as nat) % 32);
      }
      assert v[d] != w[d];
      BurstDetected(ONE, v, w, k);
      XorZero(Run(ONE, v), ONE);
      XorZero(Run(ONE, w), ONE);
    }
  }

  lemma CharsetMember(c: char)
    ensures InCharset(c) <==> c in CHARSET
  {
    if c in CHARSET {
      var i :| 0 <= i < |CHARSET| && CHARSET[i] == c;
      CharsetIndexOf(i);
    }
  }

  lemma {:induction false} NotFound(s: string, c: char, i: nat)
    requires i <= |s|
    ensures IndexOf(s, c, i).None? <==> c !in s[i..]
    decreases |s| - i
  {
    if i < |s| {
      NotFound(s, c, i + 1);
      assert s[i..] == [s[i]] + s[i + 1..];
    }
  }

  // The verdict on a payload, by the words it spells.
  ghost function PayloadVerdict(prefix: string, payload: string): Verdict {
    var bad := set c | c in payload && c !in CHARSET;
    if payload == [] then Invalid(EmptyPayload)
    else if bad != {} then Invalid(InvalidCharacters(bad))
    else if exists w :: Spells(w, prefix, payload) && PolymodOf(w) == ZERO then Valid
    else Invalid(InvalidChecksum)
  }

  lemma PayloadVerdicts(prefix: string, payload: string)
    ensures ValidatePayload(prefix, payload) == PayloadVerdict(prefix, payload)
  {
    ChecksumWord(prefix, payload, []);
    forall c: char
      ensures InCharset(c) <==> c in CHARSET
    {
      CharsetMember(c);
    }
    assert (set c | c in payload && c !in CHARSET) == set c | c in payload && !InCharset(c);
  }

  // The first two verdicts: too short, and no separator.
  lemma EarlyVerdicts(a: string, network: string)
    ensures Validate(a, network) == Invalid(TooShort) <==> |a| < 24
    ensures Validate(a, network) == Invalid(NoSeparator) <==> |a| >= 24 && ':' !in a
  {
    NotFound(a, ':', 0);
    assert a[0..] == a;
  }

  // All others, with the first separator in place n.
  lemma LaterVerdicts(a: string, network: string, n: nat)
    requires |a| >= 24 && n < |a| && a[n] == ':' && ':' !in a[..n]
    ensures var expected := if network == "testnet-10" || network == "testnet-11" then "lmttest" else "lmt";
      Validate(a, network) == if a[..n] != expected then Invalid(WrongPrefix(a[..n], expected))
                              else PayloadVerdict(expected, a[n + 1..])
  {
    assert forall j :: 0 <= j < n ==> a[j] == a[..n][j];
    FirstIndex(a, ':', 0, n);
    PayloadVerdicts(NetworkPrefix(network), a[n + 1..]);
  }
}
