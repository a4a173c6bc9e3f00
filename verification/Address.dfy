/**
 Address validation: length, prefix, charset and checksum, in the source's order,
 and what the checksum guarantees about whole addresses.
 */
module Address {
  import opened Checksum
  import CodeOrder
  import opened Wrappers

  const CHARSET: string := "qpzry9x8gf2tvdw0s3jn54khce6mua7l"
  const MIN_ADDRESS_LEN: nat := 24

  datatype Error =
    | TooShort
    | NoSeparator
    | WrongPrefix(prefix: string, expected: string)
    | EmptyPayload
    | InvalidCharacters(bad: set<char>)
    | InvalidChecksum

  datatype Verdict = Valid | Invalid(error: Error)

  // The position of c in s at or after i.
  function IndexOf(s: string, c: char, i: nat): (r: Option<nat>)
    requires i <= |s|
    ensures r.Some? ==> i <= r.value < |s| && s[r.value] == c
    decreases |s| - i
  {
    if i == |s| then None else if s[i] == c then Some(i) else IndexOf(s, c, i + 1)
  }

  // CHARSET_MAP: a character's index is its 5-bit value.
  predicate InCharset(c: char) {
    IndexOf(CHARSET, c, 0).Some?
  }

  function CharsetIndex(c: char): (i: nat)
    requires InCharset(c)
    ensures i < 32 && CHARSET[i] == c
  {
    IndexOf(CHARSET, c, 0).value
  }

  function SymbolOf(c: char): Symbol
    requires InCharset(c)
  {
    ToSymbol(CharsetIndex(c))
  }

  function ToSymbol(i: nat): Symbol
    requires i < 32
  {
    i as bv5
  }

  lemma ToSymbolInjective(i: nat, j: nat)
    requires i < 32 && j < 32 && ToSymbol(i) == ToSymbol(j)
    ensures i == j
  {
    assert (i as bv5) as nat == i;
    assert (j as bv5) as nat == j;
  }

  lemma SymbolsDiffer(c: char, d: char)
    requires InCharset(c) && InCharset(d) && SymbolOf(c) == SymbolOf(d)
    ensures c == d
  {
    ToSymbolInjective(CharsetIndex(c), CharsetIndex(d));
  }

  // The place of each character, by inspection.
  function Place(c: char): nat {
    match c
    case 'q' => 0 case 'p' => 1 case 'z' => 2 case 'r' => 3 case 'y' => 4 case '9' => 5 case 'x' => 6 case '8' => 7
    case 'g' => 8 case 'f' => 9 case '2' => 10 case 't' => 11 case 'v' => 12 case 'd' => 13 case 'w' => 14 case '0' => 15
    case 's' => 16 case '3' => 17 case 'j' => 18 case 'n' => 19 case '5' => 20 case '4' => 21 case 'k' => 22 case 'h' => 23
    case 'c' => 24 case 'e' => 25 case '6' => 26 case 'm' => 27 case 'u' => 28 case 'a' => 29 case '7' => 30 case _ => 31
  }

  lemma PlaceInCharset(i: nat)
    requires i < 32
    ensures Place(CHARSET[i]) == i
  {
  }

  // No character stands in the charset twice, so every 5-bit value has its own.
  lemma CharsetIndexOf(i: nat)
    requires i < 32
    ensures InCharset(CHARSET[i]) && CharsetIndex(CHARSET[i]) == i
  {
    forall j | 0 <= j < i
      ensures CHARSET[j] != CHARSET[i]
    {
      PlaceInCharset(i);
      PlaceInCharset(j);
    }
    FirstIndex(CHARSET, CHARSET[i], 0, i);
  }

  predicate AllInCharset(s: string) {
    forall i :: 0 <= i < |s| ==> InCharset(s[i])
  }

  function Decode(payload: string): (v: seq<Symbol>)
    requires AllInCharset(payload)
    ensures |v| == |payload|
  {
    seq(|payload|, i requires 0 <= i < |payload| => SymbolOf(payload[i]))
  }

  function CharOf(x: Symbol): (c: char)
    ensures InCharset(c) && SymbolOf(c) == x
  {
    CharsetIndexOf(x as nat);
    assert ToSymbol(x as nat) == x;
    CHARSET[x as nat]
  }

  function Encode(v: seq<Symbol>): (s: string)
    ensures AllInCharset(s) && |s| == |v|
    ensures Decode(s) == v
  {
    seq(|v|, i requires 0 <= i < |v| => CharOf(v[i]))
  }

  lemma EncodeDecode(s: string, v: seq<Symbol>)
    requires AllInCharset(s)
    ensures s == Encode(v) <==> Decode(s) == v
  {
    if Decode(s) == v {
      var t := Encode(v);
      assert Decode(t) == v;
      forall i | 0 <= i < |s|
        ensures t[i] == s[i]
      {
        assert SymbolOf(t[i]) == Decode(t)[i] == Decode(s)[i] == SymbolOf(s[i]);
        SymbolsDiffer(t[i], s[i]);
      }
    }
  }

  lemma CharsetConcat(s: string, t: string)
    requires AllInCharset(s)
    ensures AllInCharset(s + t) <==> AllInCharset(t)
  {
    if AllInCharset(s + t) {
      forall i | 0 <= i < |t|
        ensures InCharset(t[i])
      {
        assert (s + t)[|s| + i] == t[i];
      }
    }
  }

  lemma DecodeConcat(s: string, t: string)
    requires AllInCharset(s) && AllInCharset(t) && AllInCharset(s + t)
    ensures Decode(s + t) == Decode(s) + Decode(t)
  {
    forall i | 0 <= i < |s + t|
      ensures Decode(s + t)[i] == (Decode(s) + Decode(t))[i]
    {
      if i < |s| {
        assert (s + t)[i] == s[i];
      } else {
        assert (s + t)[i] == t[i - |s|];
      }
    }
  }

  // The prefix bytes masked to five bits.
  function PrefixSymbols(prefix: string): seq<Symbol> {
    seq(|prefix|, i requires 0 <= i < |prefix| => ToSymbol((prefix[i] as int) % 32))
  }

  // _verify_checksum; a character outside the charset fails it.
  predicate VerifyChecksum(prefix: string, payload: string) {
    AllInCharset(payload) && PolymodOf(PrefixSymbols(prefix) + [0] + Decode(payload)) == ZERO
  }

  // The checksum characters that belong to a prefix and data.
  function ChecksumOf(prefix: string, data: string): string
    requires AllInCharset(data)
  {
    Encode(Digits(PolymodOf(PrefixSymbols(prefix) + [0] + Decode(data) + ZEROS)))
  }

  // For every prefix and data exactly one eight-character tail passes.
  lemma OneChecksum(prefix: string, data: string, tail: string)
    requires AllInCharset(data) && |tail| == 8
    ensures VerifyChecksum(prefix, data + tail) <==> tail == ChecksumOf(prefix, data)
  {
    CharsetConcat(data, tail);
    if AllInCharset(tail) {
      DecodeConcat(data, tail);
      var head := PrefixSymbols(prefix) + [0];
      assert head + (Decode(data) + Decode(tail)) == head + Decode(data) + Decode(tail);
      TailDecides(head + Decode(data), tail);
    }
  }

  lemma TailDecides(word: seq<Symbol>, tail: string)
    requires AllInCharset(tail) && |tail| == 8
    ensures PolymodOf(word + Decode(tail)) == ZERO <==> tail == Encode(Digits(PolymodOf(word + ZEROS)))
  {
    UniqueChecksum(word, Decode(tail));
    EncodeDecode(tail, Digits(PolymodOf(word + ZEROS)));
  }

  function NetworkPrefix(network: string): (p: string)
    ensures 0 < |p| < MIN_ADDRESS_LEN && ':' !in p
  {
    if network == "testnet-10" || network == "testnet-11" then "lmttest" else "lmt"
  }

  // The checks that follow the prefix check.
  function ValidatePayload(prefix: string, payload: string): (r: Verdict)
    ensures r.Valid? <==> payload != [] && VerifyChecksum(prefix, payload)
    ensures r == Invalid(InvalidChecksum) <==> payload != [] && AllInCharset(payload) && !VerifyChecksum(prefix, payload)
  {
    if payload == [] then Invalid(EmptyPayload)
    else
      var bad := set c | c in payload && !InCharset(c);
      assert bad == {} <==> AllInCharset(payload) by {
        assert forall i :: 0 <= i < |payload| && !InCharset(payload[i]) ==> payload[i] in bad;
      }
      if bad != {} then Invalid(InvalidCharacters(bad))
      else if !VerifyChecksum(prefix, payload) then Invalid(InvalidChecksum)
      else Valid
  }

  // validate_address on the stripped, lower-cased address.
  function Validate(normalized: string, network: string): Verdict {
    if |normalized| < MIN_ADDRESS_LEN then Invalid(TooShort)
    else match IndexOf(normalized, ':', 0)
      case None => Invalid(NoSeparator)
      case Some(colon) =>
        var prefix, payload := normalized[..colon], normalized[colon + 1..];
        var expected := NetworkPrefix(network);
        if prefix != expected then Invalid(WrongPrefix(prefix, expected))
        else ValidatePayload(prefix, payload)
  }

  // The address consists of prefix p, a colon and a payload.
  predicate HasPrefix(a: string, p: string) {
    |a| > |p| && a[..|p|] == p && a[|p|] == ':'
  }

  // Past the prefix check, the verdict is the payload's.
  lemma PrefixChecked(a: string, network: string)
    ensures var p := NetworkPrefix(network);
      if |a| >= MIN_ADDRESS_LEN && HasPrefix(a, p) then Validate(a, network) == ValidatePayload(p, a[|p| + 1..])
      else !Validate(a, network).Valid? && Validate(a, network) != Invalid(InvalidChecksum)
  {
    var p := NetworkPrefix(network);
    if HasPrefix(a, p) {
      assert forall j :: 0 <= j < |p| ==> a[j] == a[..|p|][j];
      FirstIndex(a, ':', 0, |p|);
    }
  }

  // Exactly the addresses accepted: the network's prefix, a colon, and a
  // nonempty payload that passes the checksum, 24 characters or more in all.
  lemma ValidAddresses(a: string, network: string)
    ensures var p := NetworkPrefix(network);
      Validate(a, network).Valid? <==>
        |a| >= MIN_ADDRESS_LEN && HasPrefix(a, p) && |a| > |p| + 1 && VerifyChecksum(p, a[|p| + 1..])
  {
    PrefixChecked(a, network);
  }

  lemma {:induction false} FirstIndex(s: string, c: char, i: nat, k: nat)
    requires i <= k < |s| && s[k] == c && forall j :: i <= j < k ==> s[j] != c
    ensures IndexOf(s, c, i) == Some(k)
    decreases k - i
  {
    if i < k {
      FirstIndex(s, c, i + 1, k);
    }
  }

  // A burst of errors is always caught: replacing characters of a valid
  // address's payload, all within eight consecutive positions, never yields
  // another valid address, and if the replacements are themselves charset
  // characters it is the checksum that reports it.
  lemma BurstRejected(a: string, b: string, network: string, k: nat)
    requires Validate(a, network).Valid? && |a| == |b| && a != b
    requires k > |NetworkPrefix(network)|
    requires forall i :: 0 <= i < |a| && !(k <= i < k + 8) ==> a[i] == b[i]
    ensures !Validate(b, network).Valid?
    ensures AllInCharset(b[|NetworkPrefix(network)| + 1..]) ==> Validate(b, network) == Invalid(InvalidChecksum)
  {
    var p := NetworkPrefix(network);
    ValidAddresses(a, network);
    PayloadsDiffer(a, b, |p|, k);
    if AllInCharset(b[|p| + 1..]) {
      SuffixBurst(p, a[|p| + 1..], b[|p| + 1..], k - |p| - 1);
    }
    PayloadDecides(a, b, network);
  }

  lemma PayloadsDiffer(a: string, b: string, n: nat, k: nat)
    requires |a| == |b| && a != b && n < k && n < |a|
    requires forall i :: 0 <= i < |a| && !(k <= i < k + 8) ==> a[i] == b[i]
    ensures b[..n] == a[..n] && b[n] == a[n]
    ensures var v, w := a[n + 1..], b[n + 1..];
      v != w && forall i :: 0 <= i < |v| && !(k - n - 1 <= i < k - n - 1 + 8) ==> v[i] == w[i]
  {
    var v, w := a[n + 1..], b[n + 1..];
    var i :| 0 <= i < |a| && a[i] != b[i];
    assert v[i - n - 1] == a[i] && w[i - n - 1] == b[i];
    forall i | 0 <= i < |v| && !(k - n - 1 <= i < k - n - 1 + 8)
      ensures v[i] == w[i]
    {
      assert v[i] == a[i + n + 1] && w[i] == b[i + n + 1];
    }
  }

  lemma SuffixBurst(p: string, v: string, w: string, k: nat)
    requires |v| == |w| && v != w
    requires VerifyChecksum(p, v) && AllInCharset(w)
    requires forall i :: 0 <= i < |v| && !(k <= i < k + 8) ==> v[i] == w[i]
    ensures !VerifyChecksum(p, w)
  {
    var head := PrefixSymbols(p) + [0];
    var x, y := Decode(v), Decode(w);
    var i :| 0 <= i < |v| && v[i] != w[i];
    if x[i] == y[i] {
      SymbolsDiffer(v[i], w[i]);
    }
    assert x[i] != y[i];
    BurstDetected(Run(ONE, head), x, y, k);
    RunConcat(ONE, head, x);
    RunConcat(ONE, head, y);
    XorZero(Run(ONE, head + x), ONE);
    XorZero(Run(ONE, head + y), ONE);
  }

  // s and t differ exactly in the places i and j.
  ghost predicate DifferAt<T>(s: seq<T>, t: seq<T>, i: nat, j: nat) {
    && |s| == |t| && i < j < |s| && s[i] != t[i] && s[j] != t[j]
    && forall k :: 0 <= k < |s| && k != i && k != j ==> s[k] == t[k]
  }

  // What replacing c by d changes in the decoded symbol.
  function Change(c: char, d: char): Symbol
    requires InCharset(c) && InCharset(d)
  {
    SymbolOf(c) ^ SymbolOf(d)
  }

  // Replacing a by b and, gap characters on, c by d cancels out when gap is a multiple
  // of 1025 and both change their symbols alike.
  predicate CancelOut(gap: nat, a: char, b: char, c: char, d: char) {
    && InCharset(a) && InCharset(b) && InCharset(c) && InCharset(d)
    && gap % 1025 == 0 && Change(a, b) == Change(c, d)
  }

  // Two wrong characters of a valid address are caught exactly when they do not cancel
  // out; so always when they are fewer than 1025 characters apart.
  lemma TwoErrorsExactly(a: string, b: string, network: string, i: nat, j: nat)
    requires Validate(a, network).Valid? && DifferAt(a, b, i, j) && i > |NetworkPrefix(network)|
    ensures Validate(b, network).Valid? <==> CancelOut(j - i, a[i], b[i], a[j], b[j])
    ensures AllInCharset(b[|NetworkPrefix(network)| + 1..]) && !CancelOut(j - i, a[i], b[i], a[j], b[j]) ==>
      Validate(b, network) == Invalid(InvalidChecksum)
  {
    var p := NetworkPrefix(network);
    ValidAddresses(a, network);
    PayloadExactly(a, b, p, i, j);
    PayloadDecides(a, b, network);
  }

  lemma PayloadExactly(a: string, b: string, p: string, i: nat, j: nat)
    requires DifferAt(a, b, i, j) && |p| < i && VerifyChecksum(p, a[|p| + 1..])
    ensures b[..|p|] == a[..|p|] && b[|p|] == a[|p|]
    ensures VerifyChecksum(p, b[|p| + 1..]) <==> CancelOut(j - i, a[i], b[i], a[j], b[j])
  {
    PayloadPair(a, b, |p|, i, j);
    var v, w, k, m := a[|p| + 1..], b[|p| + 1..], i - |p| - 1, j - |p| - 1;
    PairExactly(p, v, w, k, m);
    assert m - k == j - i && v[k] == a[i] && w[k] == b[i] && v[m] == a[j] && w[m] == b[j];
  }

  // The address with the last bit of the symbols at i and i + 1025 flipped.
  function Flipped(a: string, i: nat): string
    requires i + 1025 < |a| && InCharset(a[i]) && InCharset(a[i + 1025])
  {
    a[i := CharOf(SymbolOf(a[i]) ^ 1)][i + 1025 := CharOf(SymbolOf(a[i + 1025]) ^ 1)]
  }

  // So from 1026 payload characters on, every valid address has another one two
  // characters away.
  lemma TwoErrorsMissed(a: string, network: string, i: nat)
    requires Validate(a, network).Valid? && i > |NetworkPrefix(network)| && i + 1025 < |a|
    ensures InCharset(a[i]) && InCharset(a[i + 1025])
    ensures Flipped(a, i) != a && Validate(Flipped(a, i), network).Valid?
  {
    var p := NetworkPrefix(network);
    ValidAddresses(a, network);
    var v := a[|p| + 1..];
    assert v[i - |p| - 1] == a[i] && v[i + 1025 - |p| - 1] == a[i + 1025];
    FlipTwice(SymbolOf(a[i]), SymbolOf(a[i + 1025]));
    TwoErrorsExactly(a, Flipped(a, i), network, i, i + 1025);
  }

  lemma FlipTwice(x: Symbol, y: Symbol)
    ensures x ^ 1 != x && y ^ 1 != y && x ^ (x ^ 1) == y ^ (y ^ 1)
  {
  }

  // With length and prefix as in a valid address the payload decides.
  lemma PayloadDecides(a: string, b: string, network: string)
    requires Validate(a, network).Valid? && |a| == |b| && HasPrefix(b, NetworkPrefix(network))
    ensures var p := NetworkPrefix(network);
      var payload := b[|p| + 1..];
      && (Validate(b, network).Valid? <==> VerifyChecksum(p, payload))
      && (AllInCharset(payload) && !VerifyChecksum(p, payload) ==> Validate(b, network) == Invalid(InvalidChecksum))
  {
    ValidAddresses(a, network);
    PrefixChecked(b, network);
  }

  lemma PayloadPair(a: string, b: string, n: nat, i: nat, j: nat)
    requires DifferAt(a, b, i, j) && n < i
    ensures b[..n] == a[..n] && b[n] == a[n]
    ensures DifferAt(a[n + 1..], b[n + 1..], i - n - 1, j - n - 1)
  {
    var v, w := a[n + 1..], b[n + 1..];
    assert v[i - n - 1] == a[i] && w[i - n - 1] == b[i] && v[j - n - 1] == a[j] && w[j - n - 1] == b[j];
    forall k | 0 <= k < |v| && k != i - n - 1 && k != j - n - 1
      ensures v[k] == w[k]
    {
      assert v[k] == a[k + n + 1] && w[k] == b[k + n + 1];
    }
  }

  lemma PairExactly(p: string, v: string, w: string, i: nat, j: nat)
    requires DifferAt(v, w, i, j) && VerifyChecksum(p, v)
    ensures VerifyChecksum(p, w) <==> CancelOut(j - i, v[i], w[i], v[j], w[j])
  {
    if InCharset(w[i]) && InCharset(w[j]) {
      CharsetPair(v, w, i, j);
      DecodedPair(v, w, i, j);
      SymbolPair(PrefixSymbols(p) + [0], Decode(v), Decode(w), i, j);
    }
  }

  lemma CharsetPair(v: string, w: string, i: nat, j: nat)
    requires DifferAt(v, w, i, j) && AllInCharset(v) && InCharset(w[i]) && InCharset(w[j])
    ensures AllInCharset(w)
  {
  }

  lemma SymbolPair(head: seq<Symbol>, x: seq<Symbol>, y: seq<Symbol>, i: nat, j: nat)
    requires DifferAt(x, y, i, j) && PolymodOf(head + x) == ZERO
    ensures PolymodOf(head + y) == ZERO <==> (j - i) % 1025 == 0 && x[i] ^ y[i] == x[j] ^ y[j]
  {
    CodeOrder.TwoErrors(Run(ONE, head), x, y, i, j);
    RunConcat(ONE, head, x);
    RunConcat(ONE, head, y);
    XorZero(Run(ONE, head + x), ONE);
    XorZero(Run(ONE, head + y), ONE);
  }

  lemma DecodedPair(v: string, w: string, i: nat, j: nat)
    requires DifferAt(v, w, i, j) && AllInCharset(v) && AllInCharset(w)
    ensures var x, y := Decode(v), Decode(w);
      DifferAt(x, y, i, j) && x[i] ^ y[i] == Change(v[i], w[i]) && x[j] ^ y[j] == Change(v[j], w[j])
  {
    var x, y := Decode(v), Decode(w);
    if x[i] == y[i] {
      SymbolsDiffer(v[i], w[i]);
    }
    if x[j] == y[j] {
      SymbolsDiffer(v[j], w[j]);
    }
  }
}
