/** Random job ids, server/proxy/uniuri.go: rejection sampling over blocks of bytes. The
    blocks that rand.Read would return are an argument; when they are used up the loop is
    still waiting for more, and there is no result yet. */
module Uniuri {
  import opened Positional
  import opened Words
  import opened Wrappers

  /** The largest random byte that is not thrown away. */
  function MaxRb(clen: nat): nat
    requires 2 <= clen <= 256
  {
    255 - 256 % clen
  }

  /** The characters that a stream of random bytes stands for. */
  function Accepted(stream: seq<byte>, chars: seq<byte>): seq<byte>
    requires 2 <= |chars| <= 256
  {
    if stream == [] then []
    else
      var rb := stream[|stream| - 1];
      Accepted(stream[..|stream| - 1], chars)
      + if rb > MaxRb(|chars|) then [] else [chars[rb % |chars|]]
  }

  function Concat(blocks: seq<seq<byte>>): seq<byte> {
    if blocks == [] then [] else Concat(blocks[..|blocks| - 1]) + blocks[|blocks| - 1]
  }

  lemma {:induction false} AcceptedConcat(a: seq<byte>, b: seq<byte>, chars: seq<byte>)
    requires 2 <= |chars| <= 256
    ensures Accepted(a + b, chars) == Accepted(a, chars) + Accepted(b, chars)
  {
    if b == [] {
      assert a + b == a;
    } else {
      assert (a + b)[..|a + b| - 1] == a + b[..|b| - 1];
      AcceptedConcat(a, b[..|b| - 1], chars);
    }
  }

  lemma AcceptedPrefix(stream: seq<byte>, n: nat, chars: seq<byte>)
    requires 2 <= |chars| <= 256 && n <= |stream|
    ensures Accepted(stream[..n], chars) <= Accepted(stream, chars)
  {
    assert stream == stream[..n] + stream[n..];
    AcceptedConcat(stream[..n], stream[n..], chars);
  }

  lemma {:induction false} ConcatPrefix(blocks: seq<seq<byte>>, n: nat)
    requires n <= |blocks|
    ensures Concat(blocks[..n]) <= Concat(blocks)
    decreases |blocks| - n
  {
    if n < |blocks| {
      ConcatPrefix(blocks, n + 1);
      assert blocks[..n + 1][..n] == blocks[..n];
      assert Concat(blocks[..n + 1]) == Concat(blocks[..n]) + blocks[n];
    } else {
      assert blocks[..n] == blocks;
    }
  }

  lemma AcceptedBlock(blocks: seq<seq<byte>>, n: nat, chars: seq<byte>)
    requires 2 <= |chars| <= 256 && n < |blocks|
    ensures Accepted(Concat(blocks[..n + 1]), chars)
      == Accepted(Concat(blocks[..n]), chars) + Accepted(blocks[n], chars)
  {
    assert blocks[..n + 1][..n] == blocks[..n];
    AcceptedConcat(Concat(blocks[..n]), blocks[n], chars);
  }

  lemma AcceptedFrom(blocks: seq<seq<byte>>, n: nat, chars: seq<byte>)
    requires 2 <= |chars| <= 256 && n <= |blocks|
    ensures Accepted(Concat(blocks[..n]), chars) <= Accepted(Concat(blocks), chars)
  {
    var part, whole := Concat(blocks[..n]), Concat(blocks);
    ConcatPrefix(blocks, n);
    assert whole[..|part|] == part;
    AcceptedPrefix(whole, |part|, chars);
  }

  datatype Outcome = Id(chars: seq<byte>) | Waiting | Bad

  /** The inner loop: the accepted bytes of one block, until the buffer is full. */
  method FillFrom(r: seq<byte>, chars: seq<byte>, b: array<byte>, start: nat) returns (i: nat)
    requires 2 <= |chars| <= 256 && start < b.Length
    modifies b
    ensures var filled := old(b[..start]) + Accepted(r, chars);
      if |filled| < b.Length then i == |filled| && b[..i] == filled
      else i == b.Length && b[..] == filled[..b.Length]
  {
    var clen := |chars|;
    var maxrb := 255 - 256 % clen;
    i := start;
    for k := 0 to |r|
      invariant i < b.Length && b[..i] == old(b[..start]) + Accepted(r[..k], chars)
    {
      var rb := r[k];
      assert r[..k + 1][..k] == r[..k];
      if rb <= maxrb {
        b[i] := chars[rb % clen];
        i := i + 1;
        if i == b.Length {
          AcceptedPrefix(r, k + 1, chars);
          return;
        }
      }
    }
    assert r[..|r|] == r;
  }

  /** NewLenChars: the first `length` accepted bytes of the stream, wherever the blocks
      end; no result while the stream is too short, and a panic (Bad) for a bad charset. */
  method NewLenChars(length: nat, chars: seq<byte>, blocks: seq<seq<byte>>) returns (r: Outcome)
    ensures length == 0 ==> r == Id([])
    ensures length > 0 && !(2 <= |chars| <= 256) ==> r == Bad
    ensures length > 0 && 2 <= |chars| <= 256 ==>
      r == var accepted := Accepted(Concat(blocks), chars);
           if |accepted| >= length then Id(accepted[..length]) else Waiting
  {
    if length == 0 {
      return Id([]);
    }
    var clen := |chars|;
    if clen < 2 || clen > 256 {
      return Bad;
    }
    var b := new byte[length](_ => 0);
    var i: nat := 0;
    for n := 0 to |blocks|
      invariant i < length && b[..i] == Accepted(Concat(blocks[..n]), chars)
    {
      AcceptedBlock(blocks, n, chars);
      AcceptedFrom(blocks, n + 1, chars);
      i := FillFrom(blocks[n], chars, b, i);
      if i == length {
        return Id(b[..]);
      }
    }
    assert blocks[..|blocks|] == blocks;
    return Waiting;
  }

  /** The accepted byte values that select character i. */
  ghost function Selecting(i: nat, clen: nat): set<int>
    requires 2 <= clen <= 256
  {
    set c: int | 0 <= c < 256 && c <= MaxRb(clen) && c % clen == i
  }

  /** i, i + clen, i + 2*clen and so on, q of them. */
  ghost function Multiples(i: nat, clen: nat, q: nat): (s: set<int>)
    requires i < clen
    ensures |s| == q
    ensures forall c :: c in s ==> c < q * clen
  {
    if q == 0 then {}
    else
      MulLess(q - 1, q, clen);
      Multiples(i, clen, q - 1) + {(q - 1) * clen + i}
  }

  lemma MulLess(a: nat, b: nat, m: nat)
    requires a < b
    ensures a * m + m <= b * m
  {
    MulMonotone(a + 1, b, m, m);
    assert (a + 1) * m == a * m + m;
  }

  lemma {:induction false} InMultiples(c: int, i: nat, clen: nat, q: nat, j: nat)
    requires i < clen && j < q && c == j * clen + i
    ensures c in Multiples(i, clen, q)
  {
    if j < q - 1 {
      InMultiples(c, i, clen, q - 1, j);
    }
  }

  lemma {:induction false} MultipleIs(c: int, i: nat, clen: nat, q: nat) returns (j: nat)
    requires i < clen && c in Multiples(i, clen, q)
    ensures j < q && c == j * clen + i
  {
    if c == (q - 1) * clen + i {
      j := q - 1;
    } else {
      j := MultipleIs(c, i, clen, q - 1);
    }
  }

  lemma SelectingIsMultiple(c: int, i: nat, clen: nat, q: nat)
    requires 2 <= clen <= 256 && i < clen && MaxRb(clen) + 1 == q * clen
    requires c in Selecting(i, clen)
    ensures c in Multiples(i, clen, q)
  {
    var j, r := Euclid(c, clen);
    QuotientBelow(j, i, clen, q);
    InMultiples(c, i, clen, q, j);
  }

  lemma MultipleIsSelecting(c: int, i: nat, clen: nat, q: nat)
    requires 2 <= clen <= 256 && i < clen && MaxRb(clen) + 1 == q * clen
    requires c in Multiples(i, clen, q)
    ensures c in Selecting(i, clen)
  {
    var j := MultipleIs(c, i, clen, q);
    MultipleRemainder(c, i, clen, j);
    assert 0 <= c <= MaxRb(clen) && c % clen == i;
  }

  lemma MultipleRemainder(c: int, i: nat, clen: nat, j: nat)
    requires i < clen && c == j * clen + i
    ensures 0 <= c && c % clen == i
  {
    DivModUnique(c, clen, j, i);
  }

  /** No modulo bias: every character is selected by 256 / clen byte values. */
  lemma EverySymbolEquallyOften(i: nat, clen: nat)
    requires 2 <= clen <= 256 && i < clen
    ensures |Selecting(i, clen)| == 256 / clen
  {
    var q, r := Euclid(256, clen);
    var s := Multiples(i, clen, q);
    forall c ensures c in Selecting(i, clen) <==> c in s {
      if c in Selecting(i, clen) {
        SelectingIsMultiple(c, i, clen, q);
      }
      if c in s {
        MultipleIsSelecting(c, i, clen, q);
      }
    }
    assert Selecting(i, clen) == s;
  }

  /** One byte: the multiples of clen up to 256 are dealt out in turn, the rest is lost. */
  lemma AcceptedByte(c: byte, chars: seq<byte>)
    requires 2 <= |chars| <= 256
    ensures Accepted([c], chars) == if c < 256 / |chars| * |chars| then [chars[c % |chars|]] else []
  {
    var q, r := Euclid(256, |chars|);
    assert [c][..0] == [];
  }

  /** The bytes that NewLenChars turns into a given character. */
  ghost function Yielding(x: byte, chars: seq<byte>): set<int>
    requires 2 <= |chars| <= 256
  {
    set c: int | 0 <= c < 256 && Accepted([c], chars) == [x]
  }

  /** So each of different characters comes from 256 / clen of the byte values. */
  lemma EachCharacterEquallyOften(chars: seq<byte>, i: nat)
    requires 2 <= |chars| <= 256 && i < |chars|
    requires forall j, k | 0 <= j < k < |chars| :: chars[j] != chars[k]
    ensures |Yielding(chars[i], chars)| == 256 / |chars|
  {
    forall c: int ensures c in Yielding(chars[i], chars) <==> c in Selecting(i, |chars|) {
      if 0 <= c < 256 {
        YieldsExactly(c, chars, i);
      }
    }
    assert Yielding(chars[i], chars) == Selecting(i, |chars|);
    EverySymbolEquallyOften(i, |chars|);
  }

  lemma YieldsExactly(c: byte, chars: seq<byte>, i: nat)
    requires 2 <= |chars| <= 256 && i < |chars|
    requires forall j, k | 0 <= j < k < |chars| :: chars[j] != chars[k]
    ensures Accepted([c], chars) == [chars[i]] <==> c in Selecting(i, |chars|)
  {
    assert [c][..0] == [];
    var m := c % |chars|;
    assert chars[m] == chars[i] <==> m == i;
    if c <= MaxRb(|chars|) {
      assert Accepted([c], chars) == [chars[m]];
      assert [chars[m]][0] == chars[m];
    } else {
      assert Accepted([c], chars) == [];
    }
  }
}
