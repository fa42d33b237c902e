/** Base58Check: a version byte in front, four checksum bytes behind. The checksum
    (twice SHA-256) is any function that yields four bytes. */
module Base58Check {
  import opened Words
  import opened Base58

  type FourBytes = s: seq<byte> | |s| == 4 witness [0, 0, 0, 0]
  type Checksum = seq<byte> -> FourBytes

  datatype CheckError = ErrInvalidFormat | ErrChecksum
  datatype Checked = Ok(payload: seq<byte>, version: byte) | Err(error: CheckError)

  function CheckEncode(checksum: Checksum, input: seq<byte>, version: byte): seq<byte> {
    var b := [version] + input;
    EncodeSpec(b + checksum(b))
  }

  function CheckDecode(checksum: Checksum, input: seq<byte>): Checked {
    var decoded := DecodeSpec(input);
    if |decoded| < 5 then Err(ErrInvalidFormat)
    else
      var body := decoded[..|decoded| - 4];
      if checksum(body) != decoded[|decoded| - 4..] then Err(ErrChecksum)
      else Ok(decoded[1..|decoded| - 4], decoded[0])
  }

  /** Like CheckDecode, but the payload is the whole decoded string. */
  function ChkDec(checksum: Checksum, input: seq<byte>): Checked {
    var decoded := DecodeSpec(input);
    if |decoded| < 5 then Err(ErrInvalidFormat)
    else
      var body := decoded[..|decoded| - 4];
      if checksum(body) != decoded[|decoded| - 4..] then Err(ErrChecksum)
      else Ok(decoded, decoded[0])
  }

  lemma CheckDecodeOfCheckEncode(checksum: Checksum, input: seq<byte>, version: byte)
    ensures CheckDecode(checksum, CheckEncode(checksum, input, version)) == Ok(input, version)
  {
    var b := [version] + input;
    DecodeOfEncode(b + checksum(b));
    var decoded := b + checksum(b);
    assert decoded[..|decoded| - 4] == b && decoded[|decoded| - 4..] == checksum(b);
    assert decoded[1..|decoded| - 4] == input;
  }

  /** Version, payload and a right checksum put together again. */
  lemma CheckedParts(checksum: Checksum, decoded: seq<byte>)
    requires |decoded| >= 5
    requires checksum(decoded[..|decoded| - 4]) == decoded[|decoded| - 4..]
    ensures var b := [decoded[0]] + decoded[1..|decoded| - 4]; b + checksum(b) == decoded
  {
    assert [decoded[0]] + decoded[1..|decoded| - 4] == decoded[..|decoded| - 4];
  }

  /** A string that passes the check is the encoding of what it decodes to. */
  lemma CheckEncodeOfCheckDecode(checksum: Checksum, s: seq<byte>)
    requires CheckDecode(checksum, s).Ok?
    ensures var r := CheckDecode(checksum, s); CheckEncode(checksum, r.payload, r.version) == s
  {
    DecodeEmptyExactly(s);
    EncodeOfDecode(s);
    CheckedParts(checksum, DecodeSpec(s));
  }

  /** The accepted strings are exactly the encodings, whichever decoder is asked. */
  lemma AcceptedExactly(checksum: Checksum, s: seq<byte>)
    ensures CheckDecode(checksum, s).Ok? <==>
      exists p: seq<byte>, v: byte :: CheckEncode(checksum, p, v) == s
    ensures ChkDec(checksum, s).Ok? <==> CheckDecode(checksum, s).Ok?
    ensures ChkDec(checksum, s).Err? ==> ChkDec(checksum, s) == CheckDecode(checksum, s)
  {
    if CheckDecode(checksum, s).Ok? {
      CheckEncodeOfCheckDecode(checksum, s);
    }
    if p: seq<byte>, v: byte :| CheckEncode(checksum, p, v) == s {
      CheckDecodeOfCheckEncode(checksum, p, v);
    }
  }

  /** The result of ChkDec determines its input. */
  lemma ChkDecCanonical(checksum: Checksum, s: seq<byte>)
    requires ChkDec(checksum, s).Ok?
    ensures EncodeSpec(ChkDec(checksum, s).payload) == s
  {
    DecodeEmptyExactly(s);
    EncodeOfDecode(s);
  }

  /** What CheckEncode encodes: version, payload and the checksum of the two. */
  lemma CheckEncodeParts(checksum: Checksum, input: seq<byte>, version: byte)
    ensures DecodeSpec(CheckEncode(checksum, input, version)) == [version] + input + checksum([version] + input)
  {
    DecodeOfEncode([version] + input + checksum([version] + input));
  }

  /** Which error comes when, and that ChkDec's payload is all of the decoded bytes. */
  lemma CheckErrors(checksum: Checksum, s: seq<byte>)
    ensures var decoded := DecodeSpec(s);
      && (CheckDecode(checksum, s) == Err(ErrInvalidFormat) <==> |decoded| < 5)
      && (ChkDec(checksum, s).Ok? ==> ChkDec(checksum, s) == Ok(decoded, decoded[0]))
      && (CheckDecode(checksum, s).Err? ==> ChkDec(checksum, s) == CheckDecode(checksum, s))
      && (CheckDecode(checksum, s).Ok? ==> ChkDec(checksum, s).Ok? && |decoded| == |CheckDecode(checksum, s).payload| + 5)
  {
  }
}
