/** The address codec of server/xdag/block.go: 24 bytes to 32 characters of six bits
    each, and back. Shifts are products and quotients of powers of two; the 64-bit
    accumulators wrap, and what is read from them does not notice. */
module XdagAddress {
  import opened Words
  import opened Positional

  const HASH_LENGTH: nat := 32
  const ADDRESS_LENGTH: nat := 32
  const BITS2MIME := "ABCDEFGHIJKLMNOPQRSTUVWXYZ" + "abcdefghijklmnopqrstuvwxyz" + "0123456789" + "+" + "/"

  function MimeSymbol(d: nat): byte
    requires d < 64
  {
    if d < 26 then d + 65
    else if d < 52 then d - 26 + 97
    else if d < 62 then d - 52 + 48
    else if d == 62 then 43
    else 47
  }

  lemma Bits2mimeSpelled(d: nat)
    requires d < 64
    ensures |BITS2MIME| == 64 && BITS2MIME[d] as nat == MimeSymbol(d)
  {
  }

  /** The reverse table mime2bits. */
  function Mime2bits(c: byte): byte {
    if 65 <= c <= 90 then c - 65
    else if 97 <= c <= 122 then c - 97 + 26
    else if 48 <= c <= 57 then c - 48 + 52
    else if c == 43 then 62
    else if c == 47 then 63
    else 0xFF
  }

  /** How init builds the table. */
  method InitMime2bits() returns (table: array<byte>)
    ensures fresh(table) && table.Length == 256
    ensures forall c: byte :: table[c] == Mime2bits(c)
  {
    table := new byte[256](_ => 0xFF);
    for i := 0 to 64
      invariant forall c: byte :: table[c] == if Mime2bits(c) < i then Mime2bits(c) else 0xFF
    {
      MimeRoundTrip(i);
      table[MimeSymbol(i)] := i;
      assert forall c: byte :: Mime2bits(c) == i <==> c == MimeSymbol(i);
    }
  }

  lemma MimeRoundTrip(d: nat)
    requires d < 64
    ensures Mime2bits(MimeSymbol(d)) == d
    ensures forall c: byte :: Mime2bits(c) == d <==> c == MimeSymbol(d)
  {
  }

  predicate IsAddress(a: seq<byte>) {
    |a| == ADDRESS_LENGTH && OverAlphabet(a)
  }

  predicate OverAlphabet(a: seq<byte>) {
    forall i | 0 <= i < |a| :: Mime2bits(a[i]) < 64
  }

  function Sextets(a: seq<byte>): (ds: seq<nat>)
    requires OverAlphabet(a)
    ensures |ds| == |a| && AllBelow(ds, 64) && forall i | 0 <= i < |a| :: ds[i] == Mime2bits(a[i])
  {
    seq(|a|, i requires 0 <= i < |a| => Mime2bits(a[i]))
  }

  function MimeSymbols(ds: seq<nat>): (a: seq<byte>)
    requires AllBelow(ds, 64)
    ensures |a| == |ds| && forall i | 0 <= i < |a| :: a[i] == MimeSymbol(ds[i])
  {
    seq(|ds|, i requires 0 <= i < |ds| => MimeSymbol(ds[i]))
  }

  lemma SextetsOfMimeSymbols(ds: seq<nat>)
    requires AllBelow(ds, 64)
    ensures OverAlphabet(MimeSymbols(ds)) && Sextets(MimeSymbols(ds)) == ds
  {
    var a := MimeSymbols(ds);
    forall i | 0 <= i < |ds| ensures Mime2bits(a[i]) == ds[i] {
      MimeRoundTrip(ds[i]);
    }
  }

  lemma MimeSymbolsOfSextets(a: seq<byte>)
    requires OverAlphabet(a)
    ensures MimeSymbols(Sextets(a)) == a
  {
    forall i | 0 <= i < |a| ensures MimeSymbol(Sextets(a)[i]) == a[i] {
      MimeRoundTrip(Mime2bits(a[i]));
    }
  }

  /** The first 24 bytes of a hash as one number, written with 32 six-bit digits. */
  function AddressOf(h: seq<byte>): seq<byte>
    requires |h| >= 24
  {
    MimeSymbols(Padded(Value(h[..24], 256), 64, 32))
  }

  /** The address as one number, written with 24 bytes, and eight zero bytes. */
  function HashOf(a: seq<byte>): seq<byte>
    requires IsAddress(a)
  {
    Padded(Value(Sextets(a), 64), 256, 24) + Zeros(8)
  }

  lemma {:induction false} SameRange(k: nat)
    ensures Pow(256, 3 * k) == Pow(64, 4 * k)
  {
    if k > 0 {
      SameRange(k - 1);
      var n := 3 * (k - 1);
      assert Pow(256, n + 3) == Pow(256, n + 2) * 256 == Pow(256, n + 1) * 65536 == Pow(256, n) * 16777216;
      var m := 4 * (k - 1);
      assert Pow(64, m + 4) == Pow(64, m + 3) * 64 == Pow(64, m + 2) * 4096 == Pow(64, m + 1) * 262144 == Pow(64, m) * 16777216;
    }
  }

  /** A hash survives the trip through its address, up to its last eight bytes. */
  lemma HashOfAddressOf(h: seq<byte>)
    requires |h| >= 24
    ensures IsAddress(AddressOf(h))
    ensures HashOf(AddressOf(h)) == h[..24] + Zeros(8)
  {
    var v := Value(h[..24], 256);
    ValueBound(h[..24], 256);
    SameRange(8);
    ValueOfPadded(v, 64, 32);
    SextetsOfMimeSymbols(Padded(v, 64, 32));
    PaddedOfValue(h[..24], 256);
  }

  /** Every valid address survives the trip through its hash. */
  lemma AddressOfHashOf(a: seq<byte>)
    requires IsAddress(a)
    ensures AddressOf(HashOf(a)) == a
  {
    var v := Value(Sextets(a), 64);
    ValueBound(Sextets(a), 64);
    SameRange(8);
    ValueOfPadded(v, 256, 24);
    assert HashOf(a)[..24] == Padded(v, 256, 24);
    PaddedOfValue(Sextets(a), 64);
    MimeSymbolsOfSextets(a);
  }

  predicate PendingBits(d: nat) {
    d == 0 || d == 2 || d == 4 || d == 6
  }

  /** 2^d, for the shift counts that occur. */
  function Shift(d: nat): nat
    requires PendingBits(d)
  {
    if d == 0 then 1 else if d == 2 then 4 else if d == 4 then 16 else 64
  }

  lemma Reassociate(a: nat, b: nat, c: nat, d: nat)
    ensures a * (b * c * d) == a * d * c * b
  {
    assert b * c * d == d * c * b;
    assert a * (d * c * b) == a * (d * c) * b == a * d * c * b;
  }

  lemma Distribute(a: nat, b: nat, c: nat)
    ensures (a + b) * c == a * c + b * c
  {
  }

  /** Reading a base-m digit at p through a window is reading it from v itself. */
  lemma WindowRead(v: nat, p: nat, m: nat, r: nat, window: nat)
    requires p > 0 && m > 0 && p * m * r == window > 0
    ensures v % window / p % m == v / p % m
  {
    var q, c := Euclid(v, window);
    var a, y := Euclid(c, p);
    var a', y' := Euclid(a, m);
    Reassociate(q, p, m, r);
    Distribute(q * r * m, a, p);
    DivModUnique(v, p, q * r * m + a, y);
    Distribute(q * r, a', m);
    DivModUnique(q * r * m + a, m, q * r + a', y');
  }

  /** Shifting a digit into the window is shifting it into v; the top bits fall off. */
  lemma WindowPush(v: nat, b: nat, m: nat, r: nat, window: nat)
    requires b < m && m * r == window > 0
    ensures v % window * m % window + b == (v * m + b) % window
  {
    var q, c := Euclid(v, window);
    WindowPushed(q, c, b, m, r, window);
  }

  lemma WindowPushed(q: nat, c: nat, b: nat, m: nat, r: nat, window: nat)
    requires b < m && m * r == window > 0
    ensures c * m % window + b == ((q * window + c) * m + b) % window
  {
    assert r > 0;
    var a, y := Euclid(c, r);
    AppendBelow(y, r, m, b);
    WindowPushSum(q, window, a, r, y, m);
    PushedRemainders(c * m, (q * window + c) * m + b, window, a, q * m + a, y * m, b);
  }

  lemma PushedRemainders(pushed: nat, whole: nat, window: nat, k: nat, k': nat, low: nat, b: nat)
    requires pushed == k * window + low && whole == k' * window + (low + b) && low + b < window
    ensures pushed % window + b == whole % window
  {
    DivModUnique(pushed, window, k, low);
    DivModUnique(whole, window, k', low + b);
  }

  lemma WindowPushSum(q: nat, window: nat, a: nat, r: nat, y: nat, m: nat)
    requires m * r == window
    ensures (a * r + y) * m == a * window + y * m
    ensures (q * window + (a * r + y)) * m == (q * m + a) * window + y * m
  {
    Distribute(a * r, y, m);
    assert a * r * m == a * (r * m) == a * window;
    Distribute(q * window, a * r + y, m);
    Distribute(q * m, a, window);
    assert q * window * m == q * m * window;
  }

  /** A base-m digit appended to v, and one base-m' digit dropped at the other end. */
  lemma Reshift(v: nat, b: nat, m: nat, p: nat, m': nat, p': nat)
    requires b < m && p > 0 && p' > 0 && m' > 0 && p * m == p' * m'
    ensures (v * m + b) / p' / m' == v / p
  {
    var a, y := Euclid(v, p);
    var w := y * m + b;
    AppendBelow(y, p, m, b);
    var x, z := Euclid(w, p');
    QuotientBelow(x, z, p', m');
    ReshiftSum(v, b, m, p, m', p', a, y, x, z);
    DivModUnique(v * m + b, p', a * m' + x, z);
    DivModUnique(a * m' + x, m', a, x);
  }

  lemma ReshiftSum(v: nat, b: nat, m: nat, p: nat, m': nat, p': nat, a: nat, y: nat, x: nat, z: nat)
    requires p * m == p' * m' && v == a * p + y && y * m + b == x * p' + z
    ensures v * m + b == (a * m' + x) * p' + z
  {
    Distribute(a * p, y, m);
    Distribute(a * m', x, p');
    assert a * p * m == a * (p * m) == a * (p' * m') == a * m' * p';
  }

  /** Six bits read off after a byte came in (d < 6) or from the six left over. */
  lemma SextetRound(v: nat, d: nat, b: byte)
    requires PendingBits(d)
    ensures d == 6 ==> v / Shift(d) * 64 + v / Shift(0) % 64 == v / Shift(0)
    ensures d < 6 ==> v / Shift(d) * 64 + (v * 256 + b) / Shift(d + 2) % 64 == (v * 256 + b) / Shift(d + 2)
  {
    if d < 6 {
      Reshift(v, b, 256, Shift(d), 64, Shift(d + 2));
    }
  }

  lemma WindowSextet(v: nat, d: nat)
    requires PendingBits(d)
    ensures v % TWO_64 / Shift(d) % 64 == v / Shift(d) % 64
  {
    WindowRead(v, Shift(d), 64, TWO_64 / (Shift(d) * 64), TWO_64);
  }

  /** The loop state of Hash2address: j bytes read, d bits of them not yet written. */
  ghost predicate Spelling(h: seq<byte>, j: nat, d: nat, c: nat, sextets: seq<nat>) {
    && j <= 24 <= |h| && PendingBits(d) && 8 * j == 6 * |sextets| + d
    && AllBelow(sextets, 64)
    && c == Value(h[..j], 256) % TWO_64
    && Value(sextets, 64) == Value(h[..j], 256) / Shift(d)
  }

  lemma SpellByte(h: seq<byte>, j: nat, d: nat, c: nat, sextets: seq<nat>)
    requires Spelling(h, j, d, c, sextets) && |sextets| < 32 && d < 6
    ensures j < 24
    ensures var c' := c * 256 % TWO_64 + h[j];
      Spelling(h, j + 1, d + 2, c', sextets + [c' / Shift(d + 2) % 64])
  {
    var v := Value(h[..j], 256);
    assert h[..j + 1] == h[..j] + [h[j]];
    ValueAppend(h[..j], h[j], 256);
    WindowPush(v, h[j], 256, TWO_64 / 256, TWO_64);
    SextetRound(v, d, h[j]);
    WindowSextet(v * 256 + h[j], d + 2);
    ValueAppend(sextets, (v * 256 + h[j]) / Shift(d + 2) % 64, 64);
  }

  lemma SpellRest(h: seq<byte>, j: nat, c: nat, sextets: seq<nat>)
    requires Spelling(h, j, 6, c, sextets)
    ensures Spelling(h, j, 0, c, sextets + [c / Shift(0) % 64])
  {
    var v := Value(h[..j], 256);
    SextetRound(v, 6, 0);
    WindowSextet(v, 0);
    ValueAppend(sextets, v / Shift(0) % 64, 64);
  }

  method Hash2address(h: seq<byte>) returns (result: seq<byte>)
    requires |h| >= 24
    ensures result == AddressOf(h)
  {
    var address := new byte[ADDRESS_LENGTH];
    var c: nat, d: nat, j: nat := 0, 0, 0;
    ghost var sextets: seq<nat> := [];
    for i := 0 to ADDRESS_LENGTH
      invariant |sextets| == i && Spelling(h, j, d, c, sextets)
      invariant forall k | 0 <= k < i :: address[k] == MimeSymbol(sextets[k])
    {
      if d < 6 {
        SpellByte(h, j, d, c, sextets);
        d := d + 8;
        c := c * 256 % TWO_64;
        c := c + h[j];
        j := j + 1;
      } else {
        SpellRest(h, j, c, sextets);
      }
      d := d - 6;
      var bits: nat := c / Shift(d) % 64;
      address[i] := MimeSymbol(bits);
      sextets := sextets + [bits];
    }
    SpellingDone(h, j, d, c, sextets);
    result := address[..];
  }

  lemma SpellingDone(h: seq<byte>, j: nat, d: nat, c: nat, sextets: seq<nat>)
    requires Spelling(h, j, d, c, sextets) && |sextets| == 32
    ensures AddressOf(h) == MimeSymbols(sextets)
  {
    assert j == 24 && d == 0;
    PaddedOfValue(sextets, 64);
  }

  /** Six bits came in; a byte is read off unless there were none pending. */
  lemma OctetRound(e: nat, n: nat, d: nat)
    requires PendingBits(n) && d < 64
    ensures n == 0 ==> (e * 64 + d) / Shift(6) == e / Shift(0)
    ensures n >= 2 ==> e / Shift(n) * 256 + (e * 64 + d) / Shift(n - 2) % 256 == (e * 64 + d) / Shift(n - 2)
  {
    if n >= 2 {
      Reshift(e, d, 64, Shift(n), 256, Shift(n - 2));
    }
  }

  lemma WindowOctet(v: nat, n: nat)
    requires PendingBits(n) && n < 6
    ensures v % TWO_64 / Shift(n) % 256 == v / Shift(n) % 256
  {
    WindowRead(v, Shift(n), 256, TWO_64 / (Shift(n) * 256), TWO_64);
  }

  /** The inner loop of Address2hash: the next character of the alphabet after k. */
  method NextSymbol(addr: seq<byte>, start: int) returns (k: int, d: byte)
    requires |addr| == 32 && -1 <= start < 32
    ensures start < k <= 32
    ensures k < 32 ==> d == Mime2bits(addr[k]) && d < 64
    ensures forall m | start < m < k :: Mime2bits(addr[m]) >= 64
  {
    k, d := start, 0;
    while true
      invariant start <= k < 32
      invariant forall m | start < m <= k :: Mime2bits(addr[m]) >= 64
      decreases 32 - k
    {
      k := k + 1;
      if k == 32 {
        return;
      }
      var c := addr[k];
      d := Mime2bits(c);
      if d / 64 == 0 {
        return;
      }
    }
  }

  /** Nothing was skipped so far, and these are the sextets; or the address is bad. */
  ghost predicate Kept(addr: seq<byte>, k: int, i: nat, kept: seq<nat>)
    requires |addr| == 32 && i <= 32
  {
    && i - 1 <= k < 32
    && if k == i - 1 then OverAlphabet(addr[..i]) && kept == Sextets(addr[..i]) else !OverAlphabet(addr)
  }

  lemma KeepOne(addr: seq<byte>, k: int, i: nat, kept: seq<nat>, k': int)
    requires |addr| == 32 && i < 32 && Kept(addr, k, i, kept) && k < k' <= 32
    requires forall m | k < m < k' :: Mime2bits(addr[m]) >= 64
    requires k' < 32 ==> Mime2bits(addr[k']) < 64
    ensures k' == 32 ==> !OverAlphabet(addr)
    ensures k' < 32 ==> Kept(addr, k', i + 1, kept + [Mime2bits(addr[k'])])
  {
    if k == i - 1 && k' == i {
      assert addr[..i + 1] == addr[..i] + [addr[i]];
    } else {
      assert k + 1 < k' ==> Mime2bits(addr[k + 1]) >= 64;
    }
  }

  /** The loop state of Address2hash: octets written, n bits of the sextets left over. */
  ghost predicate Packing(kept: seq<nat>, n: nat, e: nat, octets: seq<nat>) {
    && PendingBits(n) && 6 * |kept| == 8 * |octets| + n
    && AllBelow(kept, 64)
    && e == Value(kept, 64) % TWO_64
    && Value(octets, 256) == Value(kept, 64) / Shift(n)
  }

  lemma PackSextet(kept: seq<nat>, n: nat, e: nat, octets: seq<nat>, d: nat)
    requires Packing(kept, n, e, octets) && d < 64
    ensures var e' := e * 64 % TWO_64 + d;
      if n == 0 then Packing(kept + [d], 6, e', octets)
      else Packing(kept + [d], n - 2, e', octets + [e' / Shift(n - 2) % 256])
  {
    var v := Value(kept, 64);
    ValueAppend(kept, d, 64);
    WindowPush(v, d, 64, TWO_64 / 64, TWO_64);
    OctetRound(v, n, d);
    if n > 0 {
      WindowOctet(v * 64 + d, n - 2);
      ValueAppend(octets, (v * 64 + d) / Shift(n - 2) % 256, 256);
    }
  }

  /** Six more bits into the accumulator, and a byte out of it when there are eight. */
  method PushSextet(hash: array<byte>, e: nat, n: nat, j: nat, d: byte, ghost kept: seq<nat>)
    returns (e': nat, n': nat, j': nat)
    requires hash.Length == HASH_LENGTH && j <= 24 && d < 64 && |kept| < 32
    requires Packing(kept, n, e, hash[..j])
    modifies hash
    ensures j <= j' <= 24 && Packing(kept + [d], n', e', hash[..j'])
    ensures hash[j'..] == old(hash[j'..])
  {
    PackSextet(kept, n, e, hash[..j], d);
    e' := e * 64 % TWO_64;
    e' := e' + d;
    n' := n + 6;
    j' := j;
    if n' >= 8 {
      n' := n' - 8;
      ghost var before := hash[..j];
      var octet: byte := e' / Shift(n') % 256;
      hash[j] := octet;
      assert hash[..j + 1] == before + [octet];
      j' := j + 1;
    }
  }

  lemma PackingDone(addr: seq<byte>, k: int, kept: seq<nat>, n: nat, e: nat, octets: seq<byte>)
    requires |addr| == 32 && |kept| == 32 && Kept(addr, k, 32, kept) && Packing(kept, n, e, octets)
    ensures IsAddress(addr) && |octets| == 24 && HashOf(addr) == octets + Zeros(8)
  {
    assert addr[..32] == addr;
    PaddedOfValue(octets, 256);
  }

  /** One round of the outer loop; k' is 32 if there is no further character. */
  method ReadSextet(addr: seq<byte>, hash: array<byte>, k: int, e: nat, n: nat, j: nat, ghost i: nat, ghost kept: seq<nat>)
    returns (k': int, e': nat, n': nat, j': nat, ghost kept': seq<nat>)
    requires |addr| == 32 && hash.Length == HASH_LENGTH && j <= 24 && |kept| == i < 32
    requires Kept(addr, k, i, kept) && Packing(kept, n, e, hash[..j])
    requires hash[j..] == Zeros(HASH_LENGTH - j)
    modifies hash
    ensures k' <= 32 && (k' == 32 ==> !IsAddress(addr))
    ensures k' < 32 ==> |kept'| == i + 1 && Kept(addr, k', i + 1, kept')
    ensures k' < 32 ==> j' <= 24 && Packing(kept', n', e', hash[..j']) && hash[j'..] == Zeros(HASH_LENGTH - j')
  {
    e', n', j', kept' := e, n, j, kept;
    var d;
    k', d := NextSymbol(addr, k);
    KeepOne(addr, k, i, kept, k');
    if k' < 32 {
      kept' := kept + [d];
      e', n', j' := PushSextet(hash, e, n, j, d, kept);
      assert hash[j'..] == Zeros(HASH_LENGTH - j');
    }
  }

  method Address2hash(addr: seq<byte>) returns (result: seq<byte>, err: bool)
    ensures |result| == HASH_LENGTH
    ensures !err <==> IsAddress(addr)
    ensures !err ==> result == HashOf(addr)
  {
    var hash := new byte[HASH_LENGTH](_ => 0);
    if |addr| != 32 {
      return hash[..], true;
    }
    var e: nat, n: nat, j: nat := 0, 0, 0;
    var k: int := -1;
    ghost var kept: seq<nat> := [];  // the sextets of the characters not skipped
    for i := 0 to ADDRESS_LENGTH
      invariant |kept| == i && Kept(addr, k, i, kept)
      invariant j <= 24 && Packing(kept, n, e, hash[..j])
      invariant hash[j..] == Zeros(HASH_LENGTH - j)
    {
      k, e, n, j, kept := ReadSextet(addr, hash, k, e, n, j, i, kept);
      if k == 32 {
        return hash[..], true;
      }
    }
    PackingDone(addr, k, kept, n, e, hash[..j]);
    assert hash[..] == hash[..j] + hash[j..];
    return hash[..], false;
  }

  // The standard form: three bytes make four characters.

  /** Bytes 3k, 3k+1 and 3k+2 as four groups of six bits. */
  function Group(h: seq<byte>, k: nat): (ds: seq<nat>)
    requires 3 * k + 3 <= |h|
    ensures |ds| == 4 && AllBelow(ds, 64)
  {
    var a, b, c := h[3 * k], h[3 * k + 1], h[3 * k + 2];
    [a / 4, a % 4 * 16 + b / 16, b % 16 * 4 + c / 64, c % 64]
  }

  function Groups(h: seq<byte>, n: nat): (ds: seq<nat>)
    requires 3 * n <= |h|
    ensures |ds| == 4 * n && AllBelow(ds, 64)
  {
    if n == 0 then [] else Groups(h, n - 1) + Group(h, n - 1)
  }

  lemma FourDigits(ds: seq<nat>, g: seq<nat>)
    requires |g| == 4
    ensures Value(ds + g, 64) == Value(ds, 64) * 16777216 + (g[0] * 262144 + g[1] * 4096 + g[2] * 64 + g[3])
  {
    assert ds + g == ds + [g[0]] + [g[1]] + [g[2]] + [g[3]];
    ValueAppend(ds, g[0], 64);
    ValueAppend(ds + [g[0]], g[1], 64);
    ValueAppend(ds + [g[0]] + [g[1]], g[2], 64);
    ValueAppend(ds + [g[0]] + [g[1]] + [g[2]], g[3], 64);
  }

  lemma ThreeBytes(ds: seq<nat>, a: nat, b: nat, c: nat)
    ensures Value(ds + [a, b, c], 256) == Value(ds, 256) * 16777216 + (a * 65536 + b * 256 + c)
  {
    assert ds + [a, b, c] == ds + [a] + [b] + [c];
    ValueAppend(ds, a, 256);
    ValueAppend(ds + [a], b, 256);
    ValueAppend(ds + [a] + [b], c, 256);
  }

  lemma SameBits(a: byte, b: byte, c: byte)
    ensures a / 4 * 262144 + (a % 4 * 16 + b / 16) * 4096 + (b % 16 * 4 + c / 64) * 64 + c % 64
      == a as nat * 65536 + b as nat * 256 + c as nat
  {
  }

  lemma {:induction false} GroupsValue(h: seq<byte>, n: nat)
    requires 3 * n <= |h|
    ensures Value(Groups(h, n), 64) == Value(h[..3 * n], 256)
  {
    if n > 0 {
      var a, b, c := h[3 * n - 3], h[3 * n - 2], h[3 * n - 1];
      GroupsValue(h, n - 1);
      FourDigits(Groups(h, n - 1), Group(h, n - 1));
      assert h[..3 * n] == h[..3 * (n - 1)] + [a, b, c];
      ThreeBytes(h[..3 * (n - 1)], a, b, c);
      SameBits(a, b, c);
    }
  }

  lemma {:induction false} GroupsAt(h: seq<byte>, n: nat, k: nat)
    requires 3 * n <= |h| && k < n
    ensures Groups(h, n)[4 * k..4 * k + 4] == Group(h, k)
  {
    if k < n - 1 {
      GroupsAt(h, n - 1, k);
      assert Groups(h, n)[4 * k..4 * k + 4] == Groups(h, n - 1)[4 * k..4 * k + 4];
    }
  }

  /** An address is the first 24 bytes in base 64: characters 4k to 4k+3 stand for bytes 3k
      to 3k+2, the high bits first. */
  lemma AddressIsBase64(h: seq<byte>, k: nat)
    requires |h| >= 24 && k < 8
    ensures AddressOf(h)[4 * k..4 * k + 4] == MimeSymbols(Group(h, k))
  {
    GroupsValue(h, 8);
    PaddedOfValue(Groups(h, 8), 64);
    GroupsAt(h, 8, k);
    assert MimeSymbols(Groups(h, 8))[4 * k..4 * k + 4] == MimeSymbols(Groups(h, 8)[4 * k..4 * k + 4]);
  }
}
