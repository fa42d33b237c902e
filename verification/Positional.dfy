/** Positional numerals, most significant digit first, in any base.

    Base58 strings, big.Int byte strings and the 6-bit address symbols are all
    read through these functions. */
module Positional {

  function Pow(base: nat, e: nat): nat {
    if e == 0 then 1 else Pow(base, e - 1) * base
  }

  /** The number that a digit sequence denotes (Horner's rule). */
  function Value(ds: seq<nat>, base: nat): nat {
    if ds == [] then 0 else Value(ds[..|ds| - 1], base) * base + ds[|ds| - 1]
  }

  /** The digits of n with no leading zero; zero has no digits at all. */
  function Digits(n: nat, base: nat): seq<nat>
    requires base >= 2
  {
    if n == 0 then [] else Digits(n / base, base) + [n % base]
  }

  function Reversed<T>(s: seq<T>): (r: seq<T>)
    ensures |r| == |s| && forall i | 0 <= i < |s| :: r[i] == s[|s| - 1 - i]
  {
    seq(|s|, i requires 0 <= i < |s| => s[|s| - 1 - i])
  }

  predicate AllBelow(ds: seq<nat>, base: nat) {
    forall i | 0 <= i < |ds| :: ds[i] < base
  }

  function Zeros(n: nat): (zs: seq<nat>)
    ensures |zs| == n && forall i | 0 <= i < n :: zs[i] == 0
  {
    seq(n, _ => 0)
  }

  function LeadingZeros(ds: seq<nat>): (n: nat)
    ensures n <= |ds|
    ensures forall i | 0 <= i < n :: ds[i] == 0
    ensures n < |ds| ==> ds[n] != 0
  {
    if ds == [] || ds[0] != 0 then 0 else 1 + LeadingZeros(ds[1..])
  }

  /** The same number written in another base, with the same count of leading zeros. */
  function Rebase(ds: seq<nat>, from: nat, to: nat): seq<nat>
    requires to >= 2
  {
    Zeros(LeadingZeros(ds)) + Digits(Value(ds, from), to)
  }

  lemma PowPositive(base: nat, e: nat)
    requires base > 0
    ensures Pow(base, e) > 0
  {
    if e > 0 {
      PowPositive(base, e - 1);
    }
  }

  lemma {:induction false} PowAdd(base: nat, d: nat, e: nat)
    ensures Pow(base, d + e) == Pow(base, d) * Pow(base, e)
  {
    if e > 0 {
      PowAdd(base, d, e - 1);
      Regroup(Pow(base, d), Pow(base, e - 1), 0, base, 0);
    }
  }

  lemma {:induction false} PowMonotone(low: nat, high: nat, e: nat)
    requires low <= high
    ensures Pow(low, e) <= Pow(high, e)
  {
    if e > 0 {
      PowMonotone(low, high, e - 1);
      MulMonotone(Pow(low, e - 1), Pow(high, e - 1), low, high);
    }
  }

  lemma MulMonotone(a: nat, b: nat, c: nat, d: nat)
    requires a <= b && c <= d
    ensures a * c <= b * d
  {
    assert a * c <= b * c;
    assert b * c <= b * d;
  }

  lemma Regroup(a: nat, p: nat, v: nat, base: nat, d: nat)
    ensures (a * p + v) * base + d == a * (p * base) + (v * base + d)
  {
    assert a * p * base == a * (p * base);
  }

  /** Appending a digit in range stays below the next power. */
  lemma AppendBelow(v: nat, p: nat, base: nat, d: nat)
    requires v < p && d < base
    ensures v * base + d < p * base
  {
    MulMonotone(v + 1, p, base, base);
  }

  /** Quotient and remainder are determined by their defining equation. */
  lemma DivModUnique(n: nat, base: nat, q: nat, r: nat)
    requires n == q * base + r && r < base
    ensures n / base == q && n % base == r
  {
    var q', r' := n / base, n % base;
    if q < q' {
      AppendBelow(q, q', base, r);
    } else if q' < q {
      AppendBelow(q', q, base, r');
    }
  }

  lemma ValueAppend(ds: seq<nat>, d: nat, base: nat)
    ensures Value(ds + [d], base) == Value(ds, base) * base + d
  {
    assert (ds + [d])[..|ds|] == ds;
  }

  lemma {:induction false} ValueConcat(a: seq<nat>, b: seq<nat>, base: nat)
    ensures Value(a + b, base) == Value(a, base) * Pow(base, |b|) + Value(b, base)
  {
    if b == [] {
      assert a + b == a;
    } else {
      var init, last := b[..|b| - 1], b[|b| - 1];
      assert a + b == (a + init) + [last];
      ValueAppend(a + init, last, base);
      ValueConcat(a, init, base);
      Regroup(Value(a, base), Pow(base, |init|), Value(init, base), base, last);
    }
  }

  lemma {:induction false} ValueBound(ds: seq<nat>, base: nat)
    requires AllBelow(ds, base)
    ensures Value(ds, base) < Pow(base, |ds|)
  {
    if ds != [] {
      var init := ds[..|ds| - 1];
      ValueBound(init, base);
      AppendBelow(Value(init, base), Pow(base, |init|), base, ds[|ds| - 1]);
    }
  }

  lemma {:induction false} ValueZeros(n: nat, base: nat)
    ensures Value(Zeros(n), base) == 0
  {
    if n > 0 {
      assert Zeros(n)[..n - 1] == Zeros(n - 1);
      ValueZeros(n - 1, base);
    }
  }

  /** Quotient and remainder, by name. */
  lemma Euclid(n: nat, d: nat) returns (q: nat, r: nat)
    requires d > 0
    ensures q == n / d && r == n % d && n == q * d + r && r < d
  {
    q, r := n / d, n % d;
  }

  lemma DivMod(n: nat, base: nat) returns (q: nat, r: nat)
    requires base >= 2 && n > 0
    ensures q == n / base && r == n % base
    ensures n == q * base + r && r < base && q < n
    ensures q == 0 ==> r == n
    ensures Digits(n, base) == Digits(q, base) + [r]
  {
    q, r := n / base, n % base;
  }

  /** Digits is a numeral of its argument, in range, and canonical. */
  lemma {:induction false} DigitsSound(n: nat, base: nat)
    requires base >= 2
    ensures Value(Digits(n, base), base) == n
    ensures AllBelow(Digits(n, base), base)
    ensures n == 0 <==> Digits(n, base) == []
    ensures n > 0 ==> Digits(n, base)[0] != 0
  {
    if n > 0 {
      var q, r := DivMod(n, base);
      DigitsSound(q, base);
      ValueAppend(Digits(q, base), r, base);
    }
  }

  /** A canonical numeral is the one Digits writes. */
  lemma {:induction false} DigitsComplete(ds: seq<nat>, base: nat)
    requires base >= 2 && AllBelow(ds, base)
    requires ds != [] ==> ds[0] != 0
    ensures Digits(Value(ds, base), base) == ds
  {
    if ds != [] {
      var init, last := ds[..|ds| - 1], ds[|ds| - 1];
      DigitsComplete(init, base);
      DigitsSound(Value(init, base), base);
      DivModUnique(Value(ds, base), base, Value(init, base), last);
      assert init == [] ==> ds[0] == last;
    }
  }

  lemma LeadingZerosOf(k: nat, ds: seq<nat>)
    requires ds != [] ==> ds[0] != 0
    ensures LeadingZeros(Zeros(k) + ds) == k
  {
    var all := Zeros(k) + ds;
    var n := LeadingZeros(all);
    assert forall i | 0 <= i < k :: all[i] == 0;
    assert ds != [] ==> all[k] == ds[0];
  }

  lemma ZerosInFront(k: nat, ds: seq<nat>, base: nat)
    ensures Value(Zeros(k) + ds, base) == Value(ds, base)
  {
    ValueConcat(Zeros(k), ds, base);
    ValueZeros(k, base);
    assert 0 * Pow(base, |ds|) == 0;
  }

  /** A digit sequence is its leading zeros and the canonical digits of its value. */
  lemma Stripped(ds: seq<nat>, base: nat)
    requires base >= 2 && AllBelow(ds, base)
    ensures ds == Zeros(LeadingZeros(ds)) + Digits(Value(ds, base), base)
    ensures Value(ds, base) < Pow(base, |ds| - LeadingZeros(ds))
  {
    var k := LeadingZeros(ds);
    var rest := ds[k..];
    assert ds == Zeros(k) + rest;
    ZerosInFront(k, rest, base);
    DigitsComplete(rest, base);
    ValueBound(rest, base);
  }

  /** Changing base and back is the identity, on every digit sequence. */
  lemma RebaseInverse(ds: seq<nat>, from: nat, to: nat)
    requires from >= 2 && to >= 2 && AllBelow(ds, from)
    ensures Rebase(Rebase(ds, from, to), to, from) == ds
    ensures AllBelow(Rebase(ds, from, to), to)
  {
    var k, v := LeadingZeros(ds), Value(ds, from);
    Stripped(ds, from);
    DigitsSound(v, to);
    ZerosInFront(k, Digits(v, to), to);
    LeadingZerosOf(k, Digits(v, to));
  }

  /** n written with d digits is at least base^(d-1). */
  lemma RebaseKeepsNumber(ds: seq<nat>, from: nat, to: nat)
    requires from >= 2 && to >= 2 && AllBelow(ds, from)
    ensures Value(Rebase(ds, from, to), to) == Value(ds, from)
    ensures LeadingZeros(Rebase(ds, from, to)) == LeadingZeros(ds)
  {
    var v, k := Value(ds, from), LeadingZeros(ds);
    DigitsSound(v, to);
    ZerosInFront(k, Digits(v, to), to);
    LeadingZerosOf(k, Digits(v, to));
  }

  lemma {:induction false} DigitsLength(n: nat, base: nat)
    requires base >= 2 && n > 0
    ensures |Digits(n, base)| >= 1
    ensures Pow(base, |Digits(n, base)| - 1) <= n
  {
    var q, r := DivMod(n, base);
    if q > 0 {
      DigitsLength(q, base);
      MulMonotone(Pow(base, |Digits(q, base)| - 1), q, base, base);
    } else {
      assert |Digits(n, base)| == 1;
    }
  }

  /** A number of n digits, written in a smaller base with k zeros in front. */
  lemma ZerosAndDigits(v: nat, k: nat, n: nat, from: nat, to: nat)
    requires 2 <= to <= from && 0 < v < Pow(from, n)
    ensures |Digits(v, to)| >= 1
    ensures Pow(to, k + (|Digits(v, to)| - 1)) <= Pow(from, k + n)
  {
    DigitsLength(v, to);
    var m := |Digits(v, to)| - 1;
    PowMonotone(to, from, k);
    PowAdd(to, k, m);
    PowAdd(from, k, n);
    MulMonotone(Pow(to, k), Pow(from, k), Pow(to, m), Pow(from, n));
  }

  lemma PowGrows(base: nat, e: nat)
    requires base > 0
    ensures Pow(base, e) <= Pow(base, e + 1)
  {
    MulMonotone(Pow(base, e), Pow(base, e), 1, base);
  }

  /** Going to a smaller base costs at most the ratio of the logarithms, plus one. */
  lemma RebaseLength(ds: seq<nat>, from: nat, to: nat)
    requires 2 <= to <= from && AllBelow(ds, from) && ds != []
    ensures |Rebase(ds, from, to)| >= 1
    ensures Pow(to, |Rebase(ds, from, to)| - 1) <= Pow(from, |ds|)
  {
    var k, v := LeadingZeros(ds), Value(ds, from);
    Stripped(ds, from);
    if v == 0 {
      PowMonotone(to, from, k - 1);
      PowGrows(from, k - 1);
    } else {
      ZerosAndDigits(v, k, |ds| - k, from, to);
    }
  }

  /** n written with exactly width digits (its low ones, if it needs more). */
  function Padded(n: nat, base: nat, width: nat): (ds: seq<nat>)
    requires base >= 2
    ensures |ds| == width && AllBelow(ds, base)
  {
    if width == 0 then [] else Padded(n / base, base, width - 1) + [n % base]
  }

  lemma {:induction false} PaddedOfValue(ds: seq<nat>, base: nat)
    requires base >= 2 && AllBelow(ds, base)
    ensures Padded(Value(ds, base), base, |ds|) == ds
  {
    if ds != [] {
      var init, last := ds[..|ds| - 1], ds[|ds| - 1];
      DivModUnique(Value(ds, base), base, Value(init, base), last);
      PaddedOfValue(init, base);
    }
  }

  lemma {:induction false} ValueOfPadded(n: nat, base: nat, width: nat)
    requires base >= 2 && n < Pow(base, width)
    ensures Value(Padded(n, base, width), base) == n
    decreases width
  {
    if width > 0 {
      var q, r := PaddedStep(n, base, width);
      QuotientBelow(q, r, base, Pow(base, width - 1));
      ValueOfPadded(q, base, width - 1);
      ValueAppend(Padded(q, base, width - 1), r, base);
    }
  }

  lemma PaddedStep(n: nat, base: nat, width: nat) returns (q: nat, r: nat)
    requires base >= 2 && width > 0
    ensures n == q * base + r && r < base
    ensures Padded(n, base, width) == Padded(q, base, width - 1) + [r]
  {
    q, r := n / base, n % base;
  }

  lemma QuotientBelow(q: nat, r: nat, base: nat, p: nat)
    requires q * base + r < p * base
    ensures q < p
  {
    if q >= p {
      MulMonotone(p, q, base, base);
      assert false;
    }
  }

  lemma DivDiv(n: nat, base: nat, p: nat)
    requires base > 0 && p > 0
    ensures p * base > 0 && n / base / p == n / (p * base)
  {
    var q, r := Euclid(n, base);
    var a, b := Euclid(q, p);
    AppendBelow(b, p, base, r);
    Regroup(a, p, b, base, r);
    DivModUnique(n, p * base, a, b * base + r);
  }

  /** Which digit of n stands where. */
  lemma {:induction false} PaddedAt(n: nat, base: nat, width: nat, i: nat)
    requires base >= 2 && i < width
    ensures Pow(base, width - 1 - i) > 0
    ensures Padded(n, base, width)[i] == n / Pow(base, width - 1 - i) % base
    decreases width
  {
    PowPositive(base, width - 1 - i);
    if i < width - 1 {
      PaddedAt(n / base, base, width - 1, i);
      PowPositive(base, width - 2 - i);
      DivDiv(n, base, Pow(base, width - 2 - i));
    }
  }
}
