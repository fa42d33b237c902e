/** encoding/binary and encoding/hex, as far as the proxy uses them. */
module Encoding {
  import opened Positional
  import opened Words
  import opened Wrappers

  function BigEndian(n: nat, width: nat): (bs: seq<byte>)
    ensures |bs| == width
  {
    Padded(n, 256, width)
  }

  /** binary.LittleEndian.PutUint of a width in bytes. */
  function LittleEndian(n: nat, width: nat): (bs: seq<byte>)
    ensures |bs| == width
  {
    Reversed(BigEndian(n, width))
  }

  /** binary.LittleEndian.Uint. */
  function FromLittleEndian(bs: seq<byte>): nat {
    Value(Reversed(bs), 256)
  }

  lemma LittleEndianRoundTrip(bs: seq<byte>)
    ensures LittleEndian(FromLittleEndian(bs), |bs|) == bs
    ensures FromLittleEndian(bs) < Pow(256, |bs|)
  {
    var rs := Reversed(bs);
    PaddedOfValue(rs, 256);
    ValueBound(rs, 256);
    assert Reversed(rs) == bs;
  }

  /** Byte i of a big-endian word, and byte i of a little-endian one. */
  lemma WordAt(n: nat, width: nat, i: nat)
    requires i < width
    ensures Pow(256, i) > 0 && Pow(256, width - 1 - i) > 0
    ensures BigEndian(n, width)[i] == n / Pow(256, width - 1 - i) % 256
    ensures LittleEndian(n, width)[i] == n / Pow(256, i) % 256
  {
    PaddedAt(n, 256, width, i);
    PaddedAt(n, 256, width, width - 1 - i);
  }

  /** The first byte of a little-endian word is its lowest. */
  lemma LowestFirst(b: byte, rest: seq<byte>)
    ensures FromLittleEndian([b] + rest) == b as nat + 256 * FromLittleEndian(rest)
  {
    assert Reversed([b] + rest) == Reversed(rest) + [b];
    ValueAppend(Reversed(rest), b, 256);
  }

  lemma FromLittleEndianFour(b: seq<byte>)
    requires |b| == 4
    ensures FromLittleEndian(b) == b[0] as nat + 256 * b[1] as nat + 65536 * b[2] as nat + 16777216 * b[3] as nat
  {
    assert b == [b[0]] + ([b[1]] + ([b[2]] + ([b[3]] + [])));
    LowestFirst(b[3], []);
    LowestFirst(b[2], [b[3]] + []);
    LowestFirst(b[1], [b[2]] + ([b[3]] + []));
    LowestFirst(b[0], [b[1]] + ([b[2]] + ([b[3]] + [])));
  }

  lemma FourLowestFirst(b: seq<byte>, rest: seq<byte>)
    requires |b| == 4
    ensures FromLittleEndian(b + rest) == FromLittleEndian(b) + TWO_32 * FromLittleEndian(rest)
  {
    FromLittleEndianFour(b);
    assert b + rest == [b[0]] + ([b[1]] + ([b[2]] + ([b[3]] + rest)));
    LowestFirst(b[3], rest);
    LowestFirst(b[2], [b[3]] + rest);
    LowestFirst(b[1], [b[2]] + ([b[3]] + rest));
    LowestFirst(b[0], [b[1]] + ([b[2]] + ([b[3]] + rest)));
  }

  lemma FromLittleEndianEight(b: seq<byte>)
    requires |b| == 8
    ensures FromLittleEndian(b) == b[0] as nat + 0x100 * b[1] as nat + 0x1_0000 * b[2] as nat + 0x100_0000 * b[3] as nat
      + 0x1_0000_0000 * b[4] as nat + 0x100_0000_0000 * b[5] as nat + 0x1_0000_0000_0000 * b[6] as nat + 0x100_0000_0000_0000 * b[7] as nat
  {
    assert b == b[..4] + b[4..];
    FourLowestFirst(b[..4], b[4..]);
    FromLittleEndianFour(b[..4]);
    FromLittleEndianFour(b[4..]);
  }

  lemma PowersOf256()
    ensures Pow(256, 4) == TWO_32 && Pow(256, 8) == TWO_64
  {
    assert Pow(256, 1) == 256 && Pow(256, 2) == 65536 && Pow(256, 3) == 16777216;
    assert Pow(256, 5) == 0x100_0000_0000 && Pow(256, 6) == 0x1_0000_0000_0000 && Pow(256, 7) == 0x100_0000_0000_0000;
  }

  function HexDigit(d: nat): char
    requires d < 16
  {
    if d < 10 then '0' + d as char else 'a' + (d - 10) as char
  }

  /** The value of a hexadecimal digit of either case; 16 for any other character. */
  function HexValue(c: char): nat {
    if '0' <= c <= '9' then (c - '0') as nat
    else if 'a' <= c <= 'f' then (c - 'a') as nat + 10
    else if 'A' <= c <= 'F' then (c - 'A') as nat + 10
    else 16
  }

  function HexEncode(bs: seq<byte>): (s: string)
    ensures |s| == 2 * |bs|
  {
    if bs == [] then "" else [HexDigit(bs[0] / 16), HexDigit(bs[0] % 16)] + HexEncode(bs[1..])
  }

  function HexDecode(s: string): Option<seq<byte>> {
    if s == "" then Some([])
    else if |s| == 1 || HexValue(s[0]) == 16 || HexValue(s[1]) == 16 then None
    else
      match HexDecode(s[2..])
      case None => None
      case Some(rest) => Some([HexValue(s[0]) * 16 + HexValue(s[1])] + rest)
  }

  lemma {:induction false} HexDecodeLength(s: string)
    requires HexDecode(s).Some?
    ensures |s| == 2 * |HexDecode(s).value|
  {
    if s != "" {
      HexDecodeLength(s[2..]);
    }
  }

  lemma HexDigitRoundTrip(d: nat)
    requires d < 16
    ensures HexValue(HexDigit(d)) == d
  {
  }

  lemma {:induction false} HexRoundTrip(bs: seq<byte>)
    ensures HexDecode(HexEncode(bs)) == Some(bs)
  {
    if bs != [] {
      HexRoundTrip(bs[1..]);
      HexDigitRoundTrip(bs[0] / 16);
      HexDigitRoundTrip(bs[0] % 16);
      assert HexEncode(bs)[2..] == HexEncode(bs[1..]);
      assert [bs[0]] + bs[1..] == bs;
    }
  }

  /** The first 2k characters of a hex string are the first k bytes, and tell them apart. */
  lemma {:induction false} HexPrefix(bs: seq<byte>, k: nat)
    requires k <= |bs|
    ensures HexEncode(bs)[..2 * k] == HexEncode(bs[..k])
  {
    if k > 0 {
      HexPrefix(bs[1..], k - 1);
      assert bs[..k][1..] == bs[1..][..k - 1];
      assert HexEncode(bs)[..2 * k] == HexEncode(bs)[..2] + HexEncode(bs[1..])[..2 * (k - 1)];
    }
  }

  lemma HexPrefixInjective(a: seq<byte>, b: seq<byte>, k: nat)
    requires k <= |a| && k <= |b|
    ensures HexEncode(a)[..2 * k] == HexEncode(b)[..2 * k] <==> a[..k] == b[..k]
  {
    HexPrefix(a, k);
    HexPrefix(b, k);
    HexRoundTrip(a[..k]);
    HexRoundTrip(b[..k]);
  }

  const HEX_DIGITS := "0123456789" + "abcdef"

  lemma HexDigitSpelled(d: nat)
    requires d < 16
    ensures HexDigit(d) == HEX_DIGITS[d]
  {
  }

  /** Each byte is two digits, the high one first. */
  lemma {:induction false} HexEncodeAt(bs: seq<byte>, i: nat)
    requires i < |bs|
    ensures HexEncode(bs)[2 * i] == HEX_DIGITS[bs[i] / 16] && HexEncode(bs)[2 * i + 1] == HEX_DIGITS[bs[i] % 16]
  {
    if i == 0 {
      HexDigitSpelled(bs[0] / 16);
      HexDigitSpelled(bs[0] % 16);
    } else {
      HexEncodeAt(bs[1..], i - 1);
      assert HexEncode(bs)[2..] == HexEncode(bs[1..]);
    }
  }

  predicate IsHex(c: char) {
    '0' <= c <= '9' || 'a' <= c <= 'f' || 'A' <= c <= 'F'
  }

  /** What decodes: an even number of hexadecimal digits of either case. */
  lemma {:induction false} HexDecodeExactly(s: string)
    ensures HexDecode(s).Some? <==> |s| % 2 == 0 && forall i | 0 <= i < |s| :: IsHex(s[i])
  {
    if |s| >= 2 {
      var rest := s[2..];
      HexDecodeExactly(rest);
      assert forall i | 0 <= i < |rest| :: rest[i] == s[i + 2];
      assert forall i | 2 <= i < |s| :: s[i] == rest[i - 2];
    }
  }

  lemma {:induction false} HexDecodeAt(s: string, i: nat)
    requires HexDecode(s).Some? && 2 * i + 1 < |s|
    ensures i < |HexDecode(s).value|
    ensures HexDecode(s).value[i] == HexValue(s[2 * i]) * 16 + HexValue(s[2 * i + 1])
  {
    HexDecodeLength(s);
    if i > 0 {
      HexDecodeAt(s[2..], i - 1);
    }
  }

  /** The sixteen digits, and the capital ones. */
  lemma HexValueOf(d: nat)
    requires d < 16
    ensures HexValue(HEX_DIGITS[d]) == d
    ensures d >= 10 ==> HexValue('A' + (d - 10) as char) == d
  {
    HexDigitSpelled(d);
  }
}
