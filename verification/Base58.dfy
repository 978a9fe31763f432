/** Base58 and did:key identifiers (vc/didkey.go). */
module Base58 {
  import opened Common
  import opened SigCtx

  // ---------------------------------------------------------------- positional numbers

  /** Bytes are digits in base 256, characters digits in base 58. */
  predicate IsBase(b: nat) {
    b == 58 || b == 256
  }

  ghost predicate DigitsOf(ds: seq<nat>, base: nat) {
    forall i :: 0 <= i < |ds| ==> ds[i] < base
  }

  /** The number a list of digits writes, most significant first. */
  function Value(ds: seq<nat>, base: nat): nat {
    if ds == [] then 0 else Value(ds[..|ds| - 1], base) * base + ds[|ds| - 1]
  }

  /** The digits of a number, without leading zeros; zero has none. */
  function Digits(x: nat, base: nat): (ds: seq<nat>)
    requires IsBase(base)
    ensures DigitsOf(ds, base)
    ensures ds != [] ==> ds[0] != 0
  {
    if x == 0 then [] else
    QuotientShrinks(x, base);
    Digits(x / base, base) + [x % base]
  }

  function Zeros(n: nat): (z: seq<nat>)
    ensures |z| == n && forall i :: 0 <= i < n ==> z[i] == 0
  {
    seq(n, _ => 0)
  }

  function Leading(ds: seq<nat>): (n: nat)
    ensures n <= |ds| && ds[..n] == Zeros(n) && (n < |ds| ==> ds[n] != 0)
  {
    if ds == [] || ds[0] != 0 then 0 else
    assert ds == [ds[0]] + ds[1..];
    1 + Leading(ds[1..])
  }

  lemma QuotientShrinks(x: nat, base: nat)
    requires IsBase(base) && x > 0
    ensures 0 <= x / base < x && 0 <= x % base < base && x == (x / base) * base + x % base
  {
  }

  lemma DivModUnique(q: nat, r: nat, base: nat)
    requires IsBase(base) && r < base
    ensures (q * base + r) / base == q && (q * base + r) % base == r
  {
  }

  lemma {:induction false} ValueOfDigits(x: nat, base: nat)
    requires IsBase(base)
    ensures Value(Digits(x, base), base) == x
  {
    if x > 0 {
      QuotientShrinks(x, base);
      ValueOfDigits(x / base, base);
      var ds := Digits(x, base);
      assert ds[..|ds| - 1] == Digits(x / base, base);
    }
  }

  lemma LastDigit(v: nat, d: nat, base: nat)
    requires IsBase(base) && d < base && (v > 0 || d > 0)
    ensures v * base + d > 0 && Digits(v * base + d, base) == Digits(v, base) + [d]
  {
    DivModUnique(v, d, base);
  }

  lemma {:induction false} LastDigitOf(ds: seq<nat>, v: nat, d: nat, base: nat)
    requires IsBase(base) && DigitsOf(ds, base) && ds != [] && d == ds[|ds| - 1] && v == Value(ds[..|ds| - 1], base)
    requires Digits(v, base) == ds[..|ds| - 1] && (v > 0 || d > 0)
    ensures Value(ds, base) > 0 && Digits(Value(ds, base), base) == ds
  {
    LastDigit(v, d, base);
    assert ds == ds[..|ds| - 1] + [d];
  }

  lemma {:induction false} DigitsOfValue(ds: seq<nat>, base: nat)
    requires IsBase(base) && DigitsOf(ds, base) && (ds != [] ==> ds[0] != 0)
    ensures Digits(Value(ds, base), base) == ds
    ensures ds != [] ==> Value(ds, base) > 0
  {
    if ds != [] {
      var rest, d := ds[..|ds| - 1], ds[|ds| - 1];
      DigitsOfValue(rest, base);
      LastDigitOf(ds, Value(rest, base), d, base);
    }
  }

  lemma {:induction false} LeadingZerosAddNothing(n: nat, ds: seq<nat>, base: nat)
    ensures Value(Zeros(n) + ds, base) == Value(ds, base)
  {
    var all := Zeros(n) + ds;
    if ds != [] {
      assert all[..|all| - 1] == Zeros(n) + ds[..|ds| - 1];
      LeadingZerosAddNothing(n, ds[..|ds| - 1], base);
    } else if n > 0 {
      assert all[..|all| - 1] == Zeros(n - 1) + [];
      LeadingZerosAddNothing(n - 1, [], base);
    }
  }

  /** Rewrites a number in another base, keeping its leading zeros one for one. */
  function Recode(ds: seq<nat>, from: nat, to: nat): (r: seq<nat>)
    requires IsBase(to)
    ensures DigitsOf(r, to)
  {
    Zeros(Leading(ds)) + Digits(Value(ds, from), to)
  }

  lemma LeadingOfPadded(n: nat, ds: seq<nat>)
    requires ds != [] ==> ds[0] != 0
    ensures Leading(Zeros(n) + ds) == n
  {
    var all := Zeros(n) + ds;
    var k := Leading(all);
    assert forall i :: 0 <= i < k ==> all[i] == all[..k][i];
    assert ds != [] ==> all[n] == ds[0];
  }

  lemma RecodeRoundTrip(ds: seq<nat>, a: nat, b: nat)
    requires IsBase(a) && IsBase(b) && DigitsOf(ds, a)
    ensures Recode(Recode(ds, a, b), b, a) == ds
  {
    var z := Leading(ds);
    var rest := ds[z..];
    assert ds == Zeros(z) + rest;
    LeadingZerosAddNothing(z, rest, a);
    DigitsOfValue(rest, a);
    var v := Value(rest, a);
    LeadingOfPadded(z, Digits(v, b));
    LeadingZerosAddNothing(z, Digits(v, b), b);
    ValueOfDigits(v, b);
  }

  function Power(base: nat, n: nat): nat {
    if n == 0 then 1 else base * Power(base, n - 1)
  }

  /** What the digits are worth, place by place from the front. */
  function Worth(ds: seq<nat>, base: nat): nat {
    if ds == [] then 0 else ds[0] * Power(base, |ds| - 1) + Worth(ds[1..], base)
  }

  lemma {:induction false} WorthSnoc(ds: seq<nat>, d: nat, base: nat)
    ensures Worth(ds + [d], base) == Worth(ds, base) * base + d
  {
    if ds == [] {
      assert ds + [d] == [d] && [d][1..] == [];
      assert d * Power(base, 0) == d;
    } else {
      var p := Power(base, |ds| - 1);
      WorthSnoc(ds[1..], d, base);
      assert (ds + [d])[1..] == ds[1..] + [d];
      assert ds[0] * (base * p) == (ds[0] * p) * base;
      assert (ds[0] * p) * base + Worth(ds[1..], base) * base == (ds[0] * p + Worth(ds[1..], base)) * base;
    }
  }

  lemma {:induction false} ValueIsWorth(ds: seq<nat>, base: nat)
    ensures Value(ds, base) == Worth(ds, base)
  {
    if ds != [] {
      var rest, d := ds[..|ds| - 1], ds[|ds| - 1];
      ValueIsWorth(rest, base);
      WorthSnoc(rest, d, base);
      assert rest + [d] == ds;
    }
  }

  /** Recoding keeps the number and the leading zeros, and fixes the digits by that. */
  lemma RecodeKeepsNumber(ds: seq<nat>, from: nat, to: nat)
    requires IsBase(to) && IsBase(from)
    ensures var r := Recode(ds, from, to); Worth(r, to) == Worth(ds, from) && Leading(r) == Leading(ds)
  {
    var v := Value(ds, from);
    LeadingOfPadded(Leading(ds), Digits(v, to));
    LeadingZerosAddNothing(Leading(ds), Digits(v, to), to);
    ValueOfDigits(v, to);
    ValueIsWorth(ds, from);
    ValueIsWorth(Recode(ds, from, to), to);
  }

  // ---------------------------------------------------------------- characters

  /** Any 58 characters can serve as digits; decoding needs them to be distinct. */
  type Alphabet = al: string | |al| == 58 witness seq(58, _ => ' ')

  ghost predicate Distinct(al: Alphabet) {
    forall i, j :: 0 <= i < j < 58 ==> al[i] != al[j]
  }

  /** The position of a character in the alphabet, searched from the front. */
  function IndexFrom(al: Alphabet, c: char, i: nat): (r: Option<nat>)
    requires i <= 58
    ensures r.Some? ==> i <= r.value < 58 && al[r.value] == c
    ensures r.None? ==> forall k :: i <= k < 58 ==> al[k] != c
    decreases 58 - i
  {
    if i == 58 then None else if al[i] == c then Some(i) else IndexFrom(al, c, i + 1)
  }

  predicate Spells(al: Alphabet, s: string) {
    forall i :: 0 <= i < |s| ==> s[i] in al
  }

  function Chars(al: Alphabet, ds: seq<nat>): (s: string)
    requires forall i :: 0 <= i < |ds| ==> ds[i] < 58
    ensures |s| == |ds| && forall i :: 0 <= i < |s| ==> s[i] == al[ds[i]]
  {
    seq(|ds|, i requires 0 <= i < |ds| => al[ds[i]])
  }

  function Indices(al: Alphabet, s: string): (ds: seq<nat>)
    requires Spells(al, s)
    ensures |ds| == |s| && forall i :: 0 <= i < |s| ==> ds[i] < 58 && al[ds[i]] == s[i]
  {
    seq(|s|, i requires 0 <= i < |s| => assert s[i] in al; IndexFrom(al, s[i], 0).value)
  }

  lemma IndicesOfChars(al: Alphabet, ds: seq<nat>)
    requires Distinct(al) && forall i :: 0 <= i < |ds| ==> ds[i] < 58
    ensures Spells(al, Chars(al, ds)) && Indices(al, Chars(al, ds)) == ds
  {
  }

  // ---------------------------------------------------------------- the codec

  function Encode(al: Alphabet, input: seq<Byte>): string {
    Chars(al, Recode(input, 256, 58))
  }

  function Decode(al: Alphabet, s: string): (r: Option<seq<Byte>>)
    ensures r.Some? <==> Spells(al, s)
  {
    if Spells(al, s) then Some(Recode(Indices(al, s), 58, 256)) else None
  }

  /** The text writes the number that the bytes write, in digits of base 58, after one zero digit for
      every zero byte in front. */
  lemma EncodeWritesTheNumber(al: Alphabet, input: seq<Byte>) returns (ds: seq<nat>)
    ensures |ds| == |Encode(al, input)| && forall i :: 0 <= i < |ds| ==> ds[i] < 58 && Encode(al, input)[i] == al[ds[i]]
    ensures Worth(ds, 58) == Worth(input, 256)
    ensures Leading(ds) == Leading(input)
  {
    ds := Recode(input, 256, 58);
    RecodeKeepsNumber(input, 256, 58);
  }

  /** Decoding undoes encoding, leading zero bytes included. */
  lemma {:induction false} DecodeEncode(al: Alphabet, input: seq<Byte>)
    requires Distinct(al)
    ensures Decode(al, Encode(al, input)) == Some(input)
  {
    IndicesOfChars(al, Recode(input, 256, 58));
    RecodeRoundTrip(input, 256, 58);
  }

  /** Encoding undoes decoding: every string over the alphabet is the encoding of what it decodes to. */
  lemma {:induction false} EncodeDecode(al: Alphabet, s: string)
    requires Spells(al, s)
    ensures Encode(al, Decode(al, s).value) == s
  {
    RecodeRoundTrip(Indices(al, s), 58, 256);
  }

  // ---------------------------------------------------------------- the loops

  method ReverseInPlace(a: array<char>)
    modifies a
    ensures forall k :: 0 <= k < a.Length ==> a[k] == old(a[a.Length - 1 - k])
  {
    var i, j := 0, a.Length - 1;
    while i < j
      invariant 0 <= i <= a.Length && j == a.Length - 1 - i && i <= j + 1
      invariant forall k :: 0 <= k < i ==> a[k] == old(a[a.Length - 1 - k]) && a[a.Length - 1 - k] == old(a[k])
      invariant forall k :: i <= k <= j ==> a[k] == old(a[k])
    {
      a[i], a[j] := a[j], a[i];
      i, j := i + 1, j - 1;
    }
  }

  lemma LeadingIs(ds: seq<nat>, n: nat)
    requires n <= |ds| && (forall i :: 0 <= i < n ==> ds[i] == 0) && (n < |ds| ==> ds[n] != 0)
    ensures Leading(ds) == n
  {
  }

  function Reversed(ds: seq<nat>): (r: seq<nat>)
    ensures |r| == |ds| && forall i :: 0 <= i < |r| ==> r[i] == ds[|ds| - 1 - i]
  {
    seq(|ds|, i requires 0 <= i < |ds| => ds[|ds| - 1 - i])
  }

  /** The division loop: the characters of a number, least significant first. */
  method DigitsLastFirst(al: Alphabet, number: nat) returns (out: string)
    ensures var digits := Digits(number, 58);
            |out| == |digits| && forall i :: 0 <= i < |out| ==> out[i] == al[digits[|digits| - 1 - i]]
  {
    var x := number;
    ghost var low: seq<nat> := [];
    out := "";
    while x > 0
      invariant Digits(number, 58) == Digits(x, 58) + Reversed(low)
      invariant |out| == |low| && forall i :: 0 <= i < |out| ==> low[i] < 58 && out[i] == al[low[i]]
    {
      QuotientShrinks(x, 58);
      assert Reversed(low + [x % 58]) == [x % 58] + Reversed(low);
      low := low + [x % 58];
      out := out + [al[x % 58]];
      x := x / 58;
    }
  }

  method Base58Encode(al: Alphabet, input: seq<Byte>) returns (s: string)
    ensures s == Encode(al, input)
  {
    var zeros := 0;
    while zeros < |input| && input[zeros] == 0
      invariant 0 <= zeros <= |input|
      invariant forall i :: 0 <= i < zeros ==> input[i] == 0
    {
      zeros := zeros + 1;
    }
    LeadingIs(input, zeros);

    ghost var digits := Digits(Value(input, 256), 58);
    var out := DigitsLastFirst(al, Value(input, 256));
    for z := 0 to zeros
      invariant |out| == |digits| + z
      invariant forall i :: 0 <= i < |digits| ==> out[i] == al[digits[|digits| - 1 - i]]
      invariant forall i :: |digits| <= i < |out| ==> out[i] == al[0]
    {
      out := out + [al[0]];
    }

    var buffer := new char[|out|](i requires 0 <= i < |out| => out[i]);
    ReverseInPlace(buffer);
    s := buffer[..];
    ghost var recoded := Recode(input, 256, 58);
    forall i | 0 <= i < |s|
      ensures s[i] == al[recoded[i]]
    {
      assert s[i] == out[|out| - 1 - i];
    }
  }

  method Base58Decode(al: Alphabet, s: string) returns (r: Option<seq<Byte>>)
    requires Distinct(al)
    ensures r == Decode(al, s)
  {
    var x: nat := 0;
    for i := 0 to |s|
      invariant Spells(al, s[..i]) && x == Value(Indices(al, s[..i]), 58)
    {
      var index := IndexFrom(al, s[i], 0);
      if index.None? {
        assert s[i] !in al;
        return None;
      }
      assert Spells(al, s[..i + 1]);
      assert Indices(al, s[..i + 1])[..i] == Indices(al, s[..i]);
      x := x * 58 + index.value;
    }
    assert s[..|s|] == s;
    var zeros := 0;
    while zeros < |s| && s[zeros] == al[0]
      invariant 0 <= zeros <= |s|
      invariant forall i :: 0 <= i < zeros ==> s[i] == al[0]
    {
      zeros := zeros + 1;
    }
    FirstCharIsZero(al, s, zeros);
    return Some(Zeros(zeros) + Digits(x, 256));
  }

  lemma FirstCharIsZero(al: Alphabet, s: string, n: nat)
    requires Distinct(al) && Spells(al, s) && n <= |s|
    requires (forall i :: 0 <= i < n ==> s[i] == al[0]) && (n < |s| ==> s[n] != al[0])
    ensures Leading(Indices(al, s)) == n
  {
  }

  // ---------------------------------------------------------------- did:key

  /** The base58btc alphabet: digits and letters in ASCII order, without 0, I, O and l. */
  const ALPHABET: Alphabet := "123456789" + "ABCDEFGH" + "JKLMN" + "PQRSTUVWXYZ" + "abcdefghijk" + "mnopqrstuvwxyz"

  lemma AlphabetAscends()
    ensures forall i :: 0 <= i < 57 ==> ALPHABET[i] < ALPHABET[i + 1]
  {
  }

  lemma {:induction false} Ascending(al: Alphabet, i: nat, j: nat)
    requires i < j < 58 && forall k :: 0 <= k < 57 ==> al[k] < al[k + 1]
    ensures al[i] < al[j]
    decreases j - i
  {
    if i + 1 < j {
      Ascending(al, i, j - 1);
      assert al[j - 1] < al[j - 1 + 1];
    } else {
      assert al[i] < al[i + 1];
    }
  }

  lemma AlphabetIsDistinct()
    ensures Distinct(ALPHABET)
  {
    AlphabetAscends();
    forall i, j | 0 <= i < j < 58
      ensures ALPHABET[i] != ALPHABET[j]
    {
      Ascending(ALPHABET, i, j);
    }
  }

  const DID_KEY_PREFIX := "did:key:z"
  const KEY_SIZE := 32

  datatype DidError = NotDidKey | BadBase58 | NotEd25519

  function EncodeDidKey(al: Alphabet, pub: seq<Byte>): string {
    DID_KEY_PREFIX + Encode(al, [0xed, 0x01] + pub)
  }

  function PublicKeyFromDid(al: Alphabet, did: string): Result<seq<Byte>, DidError> {
    if !(DID_KEY_PREFIX <= did) then Err(NotDidKey)
    else
      var data := Decode(al, did[|DID_KEY_PREFIX|..]);
      if data.None? then Err(BadBase58)
      else if |data.value| != 2 + KEY_SIZE || data.value[0] != 0xed || data.value[1] != 0x01 then Err(NotEd25519)
      else Ok(data.value[2..])
  }

  /** A did:key yields a key exactly when it is that key's own identifier, so every key has one
      accepted identifier and the two functions undo each other. */
  lemma {:induction false} DidKeyIsExact(al: Alphabet, did: string, pub: seq<Byte>)
    requires Distinct(al)
    ensures PublicKeyFromDid(al, did) == Ok(pub) <==> |pub| == KEY_SIZE && did == EncodeDidKey(al, pub)
  {
    var data := [0xed, 0x01] + pub;
    if PublicKeyFromDid(al, did) == Ok(pub) {
      var text := did[|DID_KEY_PREFIX|..];
      EncodeDecode(al, text);
      assert Decode(al, text).value == data;
      assert did == DID_KEY_PREFIX + text;
    }
    if |pub| == KEY_SIZE && did == EncodeDidKey(al, pub) {
      DecodeEncode(al, data);
      assert did[|DID_KEY_PREFIX|..] == Encode(al, data);
      assert data[2..] == pub;
    }
  }

  /** And so it is for the alphabet in use. */
  lemma {:induction false} DidKeyIsExactInBase58btc(did: string, pub: seq<Byte>)
    ensures PublicKeyFromDid(ALPHABET, did) == Ok(pub) <==> |pub| == KEY_SIZE && did == EncodeDidKey(ALPHABET, pub)
  {
    AlphabetIsDistinct();
    DidKeyIsExact(ALPHABET, did, pub);
  }
}
