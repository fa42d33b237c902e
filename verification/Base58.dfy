/** The base58 codec of server/base58: chunked conversion loops, proved against
    plain positional notation. big.Int is nat; the fixed-width chunk arithmetic
    keeps its widths, so the verifier also checks that it never overflows. */
module Base58 {
  import opened Words
  import opened Positional

  // Spelled in its runs of consecutive characters.
  const ALPHABET := "123456789" + "ABCDEFGH" + "JKLMN" + "PQRSTUVWXYZ" + "abcdefghijk" + "mnopqrstuvwxyz"
  const ALPHABET_IDX0: byte := 49  // '1'
  const INVALID: byte := 255

  const BIG_RADIX: seq<nat> := [
    0, 58, 58 * 58, 58 * 58 * 58, 58 * 58 * 58 * 58, 58 * 58 * 58 * 58 * 58,
    58 * 58 * 58 * 58 * 58 * 58, 58 * 58 * 58 * 58 * 58 * 58 * 58,
    58 * 58 * 58 * 58 * 58 * 58 * 58 * 58, 58 * 58 * 58 * 58 * 58 * 58 * 58 * 58 * 58,
    BIG_RADIX_10]
  const BIG_RADIX_10: nat := 58 * 58 * 58 * 58 * 58 * 58 * 58 * 58 * 58 * 58

  /** The symbol of a digit, by runs; AlphabetSpelled ties it to ALPHABET. */
  function Symbol(d: nat): byte
    requires d < 58
  {
    if d < 9 then d + 49
    else if d < 17 then d - 9 + 65
    else if d < 22 then d - 17 + 74
    else if d < 33 then d - 22 + 80
    else if d < 44 then d - 33 + 97
    else d - 44 + 109
  }

  lemma AlphabetSpelled(d: nat)
    requires d < 58
    ensures |ALPHABET| == 58 && ALPHABET[d] as nat == Symbol(d)
  {
  }

  /** The table b58, one line per run of table entries. */
  function B58(c: byte): byte {
    if 49 <= c <= 57 then c - 49
    else if 65 <= c <= 72 then c - 65 + 9
    else if 74 <= c <= 78 then c - 74 + 17
    else if 80 <= c <= 90 then c - 80 + 22
    else if 97 <= c <= 107 then c - 97 + 33
    else if 109 <= c <= 122 then c - 109 + 44
    else INVALID
  }

  lemma SymbolToDigit(d: nat)
    requires d < 58
    ensures B58(Symbol(d)) == d
  {
  }

  lemma DigitToSymbol(c: byte)
    requires B58(c) != INVALID
    ensures B58(c) < 58 && Symbol(B58(c)) == c
  {
  }

  predicate Valid(s: seq<byte>) {
    forall i | 0 <= i < |s| :: B58(s[i]) != INVALID
  }

  /** The digits that a valid string spells. */
  function DigitsIn(s: seq<byte>): (ds: seq<nat>)
    requires Valid(s)
    ensures |ds| == |s| && AllBelow(ds, 58)
    ensures forall i | 0 <= i < |s| :: ds[i] == B58(s[i])
  {
    seq(|s|, i requires 0 <= i < |s| => DigitToSymbol(s[i]); B58(s[i]))
  }

  lemma DigitsInInjective(s: seq<byte>, t: seq<byte>)
    requires Valid(s) && Valid(t) && DigitsIn(s) == DigitsIn(t)
    ensures s == t
  {
    forall i | 0 <= i < |s| ensures s[i] == t[i] {
      DigitToSymbol(s[i]);
      DigitToSymbol(t[i]);
      assert DigitsIn(s)[i] == DigitsIn(t)[i];
    }
  }

  function Symbols(ds: seq<nat>): (s: seq<byte>)
    requires AllBelow(ds, 58)
    ensures |s| == |ds| && Valid(s) && DigitsIn(s) == ds
  {
    var s := seq(|ds|, i requires 0 <= i < |ds| => Symbol(ds[i]));
    assert Valid(s) && DigitsIn(s) == ds by {
      forall i | 0 <= i < |ds| ensures B58(s[i]) == ds[i] {
        SymbolToDigit(ds[i]);
      }
    }
    s
  }

  /** What Encode computes: the bytes as one number, rewritten in base 58. */
  function EncodeSpec(b: seq<byte>): seq<byte> {
    RebaseInverse(b, 256, 58);
    Symbols(Rebase(b, 256, 58))
  }

  /** What Decode computes: nothing for an invalid string. */
  function DecodeSpec(s: seq<byte>): seq<byte> {
    if Valid(s) then
      RebaseInverse(DigitsIn(s), 58, 256);
      Rebase(DigitsIn(s), 58, 256)
    else []
  }

  /** Decoding undoes encoding, for every byte sequence. */
  lemma DecodeOfEncode(b: seq<byte>)
    ensures DecodeSpec(EncodeSpec(b)) == b
  {
    RebaseInverse(b, 256, 58);
  }

  /** Encoding undoes decoding, for every string over the alphabet. */
  lemma EncodeOfDecode(s: seq<byte>)
    requires Valid(s)
    ensures EncodeSpec(DecodeSpec(s)) == s
  {
    RebaseInverse(DigitsIn(s), 58, 256);
    DigitsInInjective(s, Symbols(DigitsIn(s)));
  }

  /** Decode reports bad input, and only bad input, by an empty result. */
  lemma DecodeEmptyExactly(s: seq<byte>)
    ensures DecodeSpec(s) == [] <==> s == [] || !Valid(s)
  {
    if Valid(s) && DecodeSpec(s) == [] {
      EncodeOfDecode(s);
      assert EncodeSpec([]) == [];
    }
  }

  /** Encode is one-to-one and its image is exactly the strings over the alphabet. */
  lemma EncodeImage(s: seq<byte>)
    ensures Valid(s) <==> exists b: seq<byte> :: EncodeSpec(b) == s
    ensures forall b, c: seq<byte> :: EncodeSpec(b) == EncodeSpec(c) ==> b == c
  {
    if Valid(s) {
      EncodeOfDecode(s);
    }
    forall b, c: seq<byte> | EncodeSpec(b) == EncodeSpec(c) ensures b == c {
      DecodeOfEncode(b);
      DecodeOfEncode(c);
    }
  }

  /** What an encoding is: the same number, behind one '1' for each leading zero byte. */
  lemma EncodeKeepsNumber(b: seq<byte>)
    ensures Valid(EncodeSpec(b)) && Value(DigitsIn(EncodeSpec(b)), 58) == Value(b, 256)
    ensures LeadingZeros(DigitsIn(EncodeSpec(b))) == LeadingZeros(b)
  {
    DecodeOfEncode(b);
    RebaseKeepsNumber(b, 256, 58);
    EncodeDigitsOf(b);
  }

  lemma EncodeDigitsOf(b: seq<byte>)
    ensures AllBelow(Rebase(b, 256, 58), 58) && Valid(EncodeSpec(b))
    ensures DigitsIn(EncodeSpec(b)) == Rebase(b, 256, 58)
  {
    DigitsSound(Value(b, 256), 58);
  }

  /** At most log58(256^n) + 1 symbols for n bytes, leading zeros included. */
  lemma EncodeLength(b: seq<byte>)
    requires b != []
    ensures |EncodeSpec(b)| >= 1
    ensures Pow(58, |EncodeSpec(b)| - 1) <= Pow(256, |b|)
  {
    RebaseLength(b, 256, 58);
  }

  lemma RadixTable(n: nat)
    requires 1 <= n <= 10
    ensures BIG_RADIX[n] == Pow(58, n) <= BIG_RADIX_10
  {
    assert Pow(58, 1) == Pow(58, 0) * 58 == 58;
    assert Pow(58, 2) == Pow(58, 1) * 58 == 3364;
    assert Pow(58, 3) == Pow(58, 2) * 58 == 195112;
    assert Pow(58, 4) == Pow(58, 3) * 58 == 11316496;
    assert Pow(58, 5) == Pow(58, 4) * 58 == 656356768;
    assert Pow(58, 6) == Pow(58, 5) * 58 == 38068692544;
    assert Pow(58, 7) == Pow(58, 6) * 58 == 2207984167552;
    assert Pow(58, 8) == Pow(58, 7) * 58 == 128063081718016;
    assert Pow(58, 9) == Pow(58, 8) * 58 == 7427658739644928;
    assert Pow(58, 10) == Pow(58, 9) * 58 == 430804206899405824;
  }

  /** The inner loop of Decode on a chunk of n <= 10 characters. */
  method DecodeChunk(chunk: seq<byte>) returns (ok: bool, total: uint64)
    requires |chunk| <= 10
    ensures ok <==> Valid(chunk)
    ensures ok ==> total == Value(DigitsIn(chunk), 58)
  {
    total := 0;
    for k := 0 to |chunk|
      invariant Valid(chunk[..k])
      invariant total == Value(DigitsIn(chunk[..k]), 58)
    {
      var tmp := B58(chunk[k]);
      if tmp == 255 {
        return false, total;
      }
      ChunkStep(chunk, k);
      total := total * 58 + tmp;
    }
    assert chunk[..|chunk|] == chunk;
    ok := true;
  }

  lemma ValidConcat(a: seq<byte>, b: seq<byte>)
    ensures Valid(a + b) <==> Valid(a) && Valid(b)
    ensures Valid(a + b) ==> DigitsIn(a + b) == DigitsIn(a) + DigitsIn(b)
  {
    var ab := a + b;
    assert forall i | 0 <= i < |a| :: ab[i] == a[i];
    assert forall i | 0 <= i < |b| :: ab[|a| + i] == b[i];
  }

  /** A chunk of n characters: the string is bad if it is, and otherwise the value moves
      up by 58^n. */
  lemma ChunkRead(b: seq<byte>, done: seq<byte>, t: seq<byte>, n: nat)
    requires b == done + t && Valid(done) && 1 <= n <= 10 && n <= |t|
    ensures b == (done + t[..n]) + t[n..]
    ensures !Valid(t[..n]) ==> DecodeSpec(b) == []
    ensures Valid(t[..n]) ==> (
      && Valid(done + t[..n])
      && Value(DigitsIn(done + t[..n]), 58) == Value(DigitsIn(done), 58) * BIG_RADIX[n] + Value(DigitsIn(t[..n]), 58))
  {
    assert t == t[..n] + t[n..];
    ValidConcat(done, t);
    ValidConcat(t[..n], t[n..]);
    ValidConcat(done, t[..n]);
    if Valid(t[..n]) {
      RadixTable(n);
      ValueConcat(DigitsIn(done), DigitsIn(t[..n]), 58);
    }
  }

  /** Decode: ten digits at a time, rejecting as soon as a bad character is met. */
  method Decode(b: seq<byte>) returns (val: seq<byte>)
    ensures val == DecodeSpec(b)
  {
    var answer: nat := 0;
    var t := b;
    ghost var done: seq<byte> := [];
    while |t| > 0
      invariant b == done + t && Valid(done)
      invariant answer == Value(DigitsIn(done), 58)
      decreases |t|
    {
      var n := |t|;
      if n > 10 {
        n := 10;
      }
      var ok, total := DecodeChunk(t[..n]);
      ChunkRead(b, done, t, n);
      if !ok {
        return [];
      }
      answer := answer * BIG_RADIX[n] + total;
      done := done + t[..n];
      t := t[n..];
    }
    assert done == b;
    val := PrependZeros(b, Digits(answer, 256));
  }

  /** The tail of Decode: one zero byte for every leading '1' of a valid string. */
  method PrependZeros(b: seq<byte>, tmpval: seq<nat>) returns (val: seq<byte>)
    requires Valid(b) && tmpval == Digits(Value(DigitsIn(b), 58), 256)
    ensures val == DecodeSpec(b)
  {
    DigitsSound(Value(DigitsIn(b), 58), 256);
    var numZeros := 0;
    while numZeros < |b|
      invariant numZeros <= |b|
      invariant forall i | 0 <= i < numZeros :: b[i] == ALPHABET_IDX0
    {
      if b[numZeros] != ALPHABET_IDX0 {
        break;
      }
      numZeros := numZeros + 1;
    }
    OnesAreLeadingZeros(b, numZeros);
    val := CopyAfterZeros(numZeros, tmpval);
  }

  /** make and copy: a zeroed buffer with the bytes copied to its end. */
  method CopyAfterZeros(numZeros: nat, tmpval: seq<nat>) returns (val: seq<byte>)
    requires AllBelow(tmpval, 256)
    ensures val == Zeros(numZeros) + tmpval
  {
    var buffer := new byte[numZeros + |tmpval|](_ => 0);
    for i := 0 to |tmpval|
      invariant forall j | 0 <= j < numZeros :: buffer[j] == 0
      invariant forall j | 0 <= j < i :: buffer[numZeros + j] == tmpval[j]
    {
      buffer[numZeros + i] := tmpval[i];
    }
    val := buffer[..];
  }

  /** One more digit in a chunk keeps the running total below 58^10. */
  lemma ChunkStep(t: seq<byte>, k: nat)
    requires k < |t| && k < 10 && Valid(t[..k]) && B58(t[k]) != INVALID
    ensures Valid(t[..k + 1])
    ensures Value(DigitsIn(t[..k + 1]), 58) == Value(DigitsIn(t[..k]), 58) * 58 + B58(t[k])
    ensures Value(DigitsIn(t[..k + 1]), 58) < BIG_RADIX_10
  {
    var ds := DigitsIn(t[..k + 1]);
    assert ds[..k] == DigitsIn(t[..k]);
    ValueBound(ds, 58);
    RadixTable(k + 1);
  }

  lemma OnesAreLeadingZeros(b: seq<byte>, n: nat)
    requires Valid(b) && n <= |b|
    requires forall i | 0 <= i < n :: b[i] == ALPHABET_IDX0
    requires n < |b| ==> b[n] != ALPHABET_IDX0
    ensures LeadingZeros(DigitsIn(b)) == n
  {
    var ds := DigitsIn(b);
    assert forall i | 0 <= i < |b| :: ds[i] == 0 <==> b[i] == ALPHABET_IDX0;
    LeadingZerosOf(n, ds[n..]);
    assert ds == Zeros(n) + ds[n..];
  }

  /** The loop state of Encode: the symbols emitted so far, read backwards, are the
      low digits of v, and the digits of x are the rest. */
  ghost predicate Emitted(v: nat, x: nat, answer: seq<byte>) {
    Valid(answer) && Digits(v, 58) == Digits(x, 58) + Reversed(DigitsIn(answer))
  }

  lemma EmitStep(v: nat, x: nat, answer: seq<byte>)
    requires x > 0 && Emitted(v, x, answer)
    ensures Emitted(v, x / 58, answer + [Symbol(x % 58)])
  {
    SymbolToDigit(x % 58);
    var next := answer + [Symbol(x % 58)];
    assert Reversed(DigitsIn(next)) == [x % 58] + Reversed(DigitsIn(answer));
    assert Digits(x, 58) == Digits(x / 58, 58) + [x % 58];
  }

  /** Emitting the digit m % 58 of a padded chunk emits a digit of the whole number. */
  lemma PaddedStep(v: nat, x: nat, m: nat, left: nat, answer: seq<byte>)
    requires x > 0 && left > 0
    requires Emitted(v, x * Pow(58, left) + m, answer)
    ensures Emitted(v, x * Pow(58, left - 1) + m / 58, answer + [Symbol(m % 58)])
  {
    var whole := x * Pow(58, left) + m;
    PowPositive(58, left);
    assert x * Pow(58, left) >= 1 * Pow(58, left);
    assert whole == (x * Pow(58, left - 1) + m / 58) * 58 + m % 58;
    DivModUnique(whole, 58, x * Pow(58, left - 1) + m / 58, m % 58);
    EmitStep(v, whole, answer);
  }

  /** The conversion loop of Encode: low digits first, ten at a time. */
  method EncodeDigits(v: nat) returns (answer: seq<byte>)
    ensures Emitted(v, 0, answer)
  {
    var x: nat := v;
    answer := [];
    RadixTable(10);
    while x > 0
      invariant Emitted(v, x, answer)
    {
      ghost var whole := x;
      var mod: nat := x % BIG_RADIX_10;
      x := x / BIG_RADIX_10;
      var m: int64 := mod;
      if x == 0 {
        while m > 0
          invariant m >= 0 && Emitted(v, m, answer)
        {
          EmitStep(v, m, answer);
          answer := answer + [Symbol(m % 58)];
          m := m / 58;
        }
      } else {
        assert whole == x * Pow(58, 10) + m;
        answer := EncodePadded(v, x, m, answer);
      }
    }
  }

  /** The inner loop of Encode for a chunk below others: exactly ten digits. */
  method EncodePadded(ghost v: nat, ghost x: nat, chunk: int64, before: seq<byte>) returns (answer: seq<byte>)
    requires x > 0 && 0 <= chunk < Pow(58, 10)
    requires Emitted(v, x * Pow(58, 10) + chunk, before)
    ensures Emitted(v, x, answer) && |answer| == |before| + 10
  {
    var m: int64 := chunk;
    answer := before;
    for i := 0 to 10
      invariant 0 <= m < Pow(58, 10 - i)
      invariant Emitted(v, x * Pow(58, 10 - i) + m, answer)
      invariant |answer| == |before| + i
    {
      PaddedStep(v, x, m, 10 - i, answer);
      answer := answer + [Symbol(m % 58)];
      m := m / 58;
    }
  }

  method Reverse(answer: array<byte>)
    modifies answer
    ensures answer[..] == Reversed(old(answer[..]))
  {
    var alen := answer.Length;
    for i := 0 to alen / 2
      invariant forall j | 0 <= j < i || alen - i <= j < alen :: answer[j] == old(answer[alen - 1 - j])
      invariant forall j | i <= j < alen - i :: answer[j] == old(answer[j])
    {
      answer[i], answer[alen - 1 - i] := answer[alen - 1 - i], answer[i];
    }
  }

  /** A '1' appended is a zero in front, once the string is read backwards. */
  lemma AppendOne(s: seq<byte>, k: nat, high: seq<nat>)
    requires Valid(s) && Reversed(DigitsIn(s)) == Zeros(k) + high
    ensures Valid(s + [ALPHABET_IDX0])
    ensures Reversed(DigitsIn(s + [ALPHABET_IDX0])) == Zeros(k + 1) + high
  {
    ValidConcat(s, [ALPHABET_IDX0]);
    assert DigitsIn([ALPHABET_IDX0]) == [0];
    assert Reversed(DigitsIn(s) + [0]) == [0] + Reversed(DigitsIn(s));
    assert Zeros(k + 1) == [0] + Zeros(k);
  }

  /** Encode: the digits, then a '1' for every leading zero byte, then reversed. */
  method Encode(b: seq<byte>) returns (s: seq<byte>)
    ensures s == EncodeSpec(b)
  {
    var answer := EncodeDigits(Value(b, 256));
    ghost var high := Digits(Value(b, 256), 58);
    var k := 0;
    while k < |b|
      invariant k <= |b| && forall i | 0 <= i < k :: b[i] == 0
      invariant Valid(answer) && Reversed(DigitsIn(answer)) == Zeros(k) + high
    {
      if b[k] != 0 {
        break;
      }
      AppendOne(answer, k, high);
      answer := answer + [ALPHABET_IDX0];
      k := k + 1;
    }
    LeadingZerosOf(k, b[k..]);
    assert b == Zeros(k) + b[k..];

    var buffer := new byte[|answer|](i requires 0 <= i < |answer| => answer[i]);
    assert buffer[..] == answer;
    Reverse(buffer);
    s := buffer[..];
    ReversedSymbols(answer, s);
  }

  lemma ReversedSymbols(s: seq<byte>, r: seq<byte>)
    requires Valid(s) && r == Reversed(s)
    ensures Valid(r) && r == Symbols(Reversed(DigitsIn(s)))
  {
    forall i | 0 <= i < |r| ensures B58(r[i]) == Reversed(DigitsIn(s))[i] {
      assert r[i] == s[|s| - 1 - i];
    }
    assert DigitsIn(r) == Reversed(DigitsIn(s));
    DigitsInInjective(r, Symbols(Reversed(DigitsIn(s))));
  }
}
