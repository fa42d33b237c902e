/** Field framing: which pool fields become jobs. The two-state reassembly of
    handleNotification is compared with a parser that looks at the whole history. */
module Framing {
  import opened Encoding
  import opened Jobs
  import opened Positional
  import opened ProxyRuns
  import opened ProxySteps
  import opened Wire
  import opened Words
  import opened Wrappers
  import XdagAddress

  /** A field as the framing sees it: the address with a balance, a field that ends in
      eight zero bytes, or any other. */
  datatype Mark = Balance | Trailing(field: Field) | Plain(field: Field)

  function MarkOf(st: State, f: Field): Mark {
    if st.IsBalance(f.Data()) then Balance
    else if EndsInZeros(f.Data()) then Trailing(f)
    else Plain(f)
  }

  /** The pairs of adjacent fields that make jobs, found by looking ahead: a plain field
      opens a pair, which the next field completes unless it is a balance. */
  function Pairs(ms: seq<Mark>): seq<(Field, Field)> {
    if |ms| < 2 then []
    else if !ms[0].Plain? then Pairs(ms[1..])
    else if ms[1].Balance? then Pairs(ms[2..])
    else [(ms[0].field, ms[1].field)] + Pairs(ms[2..])
  }

  /** The field that has opened a pair and still waits for the next one. */
  function Open(ms: seq<Mark>): Option<Field> {
    if ms == [] then None
    else if !ms[0].Plain? then Open(ms[1..])
    else if |ms| == 1 then Some(ms[0].field)
    else Open(ms[2..])
  }

  /** Where the pairs start in the history. */
  function Positions(ms: seq<Mark>, offset: nat): seq<nat> {
    if |ms| < 2 then []
    else if !ms[0].Plain? then Positions(ms[1..], offset + 1)
    else if ms[1].Balance? then Positions(ms[2..], offset + 2)
    else [offset] + Positions(ms[2..], offset + 2)
  }

  /** The pairs are neighbouring fields at these positions, and no field is in two. */
  ghost predicate Located(all: seq<Mark>, ps: seq<nat>, pairs: seq<(Field, Field)>, from: nat) {
    && |ps| == |pairs|
    && (forall i | 0 <= i < |ps| ::
          && from <= ps[i] && ps[i] + 1 < |all| && all[ps[i]].Plain? && !all[ps[i] + 1].Balance?
          && pairs[i] == (all[ps[i]].field, all[ps[i] + 1].field))
    && (forall i, j | 0 <= i < j < |ps| :: ps[i] + 2 <= ps[j])
  }

  lemma LocateFirst(all: seq<Mark>, ps: seq<nat>, pairs: seq<(Field, Field)>, p: nat)
    requires Located(all, ps, pairs, p + 2)
    requires p + 1 < |all| && all[p].Plain? && !all[p + 1].Balance?
    ensures Located(all, [p] + ps, [(all[p].field, all[p + 1].field)] + pairs, p)
  {
  }

  lemma LocateLater(all: seq<Mark>, ps: seq<nat>, pairs: seq<(Field, Field)>, from: nat, p: nat)
    requires Located(all, ps, pairs, p) && from <= p
    ensures Located(all, ps, pairs, from)
  {
  }

  lemma {:induction false} PairsAreAdjacent(all: seq<Mark>, offset: nat)
    requires offset <= |all|
    ensures Located(all, Positions(all[offset..], offset), Pairs(all[offset..]), offset)
    decreases |all| - offset
  {
    if offset + 2 <= |all| {
      var step := if all[offset].Plain? then 2 else 1;
      var rest := all[offset + step..];
      assert all[offset..][step..] == rest;
      PairsAreAdjacent(all, offset + step);
      var ps, pairs := Positions(rest, offset + step), Pairs(rest);
      if step == 2 && !all[offset + 1].Balance? {
        LocateFirst(all, ps, pairs, offset);
      } else {
        LocateLater(all, ps, pairs, offset, offset + step);
      }
    }
  }

  /** Which fields open a pair: the plain ones that do not complete or break off another. */
  predicate Opens(ms: seq<Mark>, p: nat)
    requires p < |ms|
  {
    ms[p].Plain? && !(p > 0 && Opens(ms, p - 1))
  }

  /** The parse finds every pair there is. */
  lemma {:induction false} PairsAreAll(all: seq<Mark>, offset: nat)
    requires offset <= |all| && (offset > 0 ==> !Opens(all, offset - 1))
    ensures forall p: nat :: (
      p in Positions(all[offset..], offset)
      <==> offset <= p && p + 1 < |all| && Opens(all, p) && !all[p + 1].Balance?)
    decreases |all| - offset
  {
    if offset + 2 <= |all| {
      var step := if all[offset].Plain? then 2 else 1;
      assert all[offset..][step..] == all[offset + step..];
      assert Opens(all, offset) <==> all[offset].Plain?;
      PairsAreAll(all, offset + step);
    }
  }

  /** The mark of a field, byte by byte. */
  lemma MarkExactly(st: State, f: Field)
    requires |f.notif| == 32
    ensures MarkOf(st, f).Balance? <==> XdagAddress.AddressOf(f.notif) == st.address
    ensures MarkOf(st, f) == Plain(f)
      <==> XdagAddress.AddressOf(f.notif) != st.address && exists i :: 24 <= i < 32 && f.notif[i] != 0
  {
    assert f.Data() == f.notif;
    ZeroTail(f.notif);
  }

  /** How one more field changes the parse: this is all that the proxy remembers. */
  lemma {:induction false} ParseOneMore(ms: seq<Mark>, m: Mark)
    ensures Pairs(ms + [m]) == Pairs(ms)
      + if Open(ms).Some? && !m.Balance? then [(Open(ms).value, m.field)] else []
    ensures Open(ms + [m]) == if Open(ms).None? && m.Plain? then Some(m.field) else None
    decreases |ms|
  {
    var more := ms + [m];
    if ms == [] {
      assert more == [m];
    } else {
      assert more[0] == ms[0] && more[1..] == ms[1..] + [m];
      if !ms[0].Plain? {
        ParseOneMore(ms[1..], m);
      } else if |ms| == 1 {
        assert more[1] == m && more[2..] == [];
      } else {
        assert more[1] == ms[1] && more[2..] == ms[2..] + [m];
        ParseOneMore(ms[2..], m);
      }
    }
  }

  /** The fields of a run, marked. */
  function Marks(st: State, es: seq<Event>): seq<Mark> {
    if es == [] then []
    else
      var e := es[|es| - 1];
      Marks(st, es[..|es| - 1]) + if e.OnField? then [MarkOf(st, e.field)] else []
  }

  /** The candidate jobs that a run of the proxy produces. */
  function Candidates(st: State, es: seq<Event>): seq<JobView>
    requires st.Valid()
  {
    if es == [] then []
    else
      var before, e := Run(st, es[..|es| - 1]), es[|es| - 1];
      Candidates(st, es[..|es| - 1])
      + if e.OnField? && before.Candidate(e.field).Some? then [before.Candidate(e.field).value] else []
  }

  /** The candidate of a pair. */
  function JobOf(st: State, pair: (Field, Field)): JobView
    requires st.Valid()
  {
    st.MakeJob(pair.0.Data() + pair.1.Data(), pair.1.id, pair.1.nonce, pair.1.target)
  }

  function JobsOf(st: State, pairs: seq<(Field, Field)>): (js: seq<JobView>)
    requires st.Valid()
    ensures |js| == |pairs| && forall i | 0 <= i < |js| :: js[i] == JobOf(st, pairs[i])
  {
    seq(|pairs|, i requires 0 <= i < |pairs| => JobOf(st, pairs[i]))
  }

  /** recvCount and recvByte are the open field, and the address is as it was. */
  ghost predicate Remembers(st: State, now: State, open: Option<Field>)
  {
    && now.address == st.address && now.addressHash == st.addressHash
    && now.recvCount == (if open.Some? then 1 else 0)
    && (open.Some? ==> |now.recvByte| >= 32 && now.recvByte[..32] == open.value.Data())
  }

  lemma FieldStep(st: State, now: State, open: Option<Field>, f: Field)
    requires st.Valid() && now.Valid() && Remembers(st, now, open)
    ensures var m := MarkOf(st, f);
      && Remembers(st, now.Notify(f), if open.None? && m.Plain? then Some(f) else None)
      && now.Candidate(f) == (
        if open.Some? && !m.Balance? && st.address != DETECT_PROXY then Some(JobOf(st, (open.value, f))) else None)
      && (!m.Balance? ==> m.field == f)
  {
    assert now.IsBalance(f.Data()) == st.IsBalance(f.Data());
  }

  lemma OtherStep(st: State, now: State, open: Option<Field>, e: Event)
    requires st.Valid() && now.Valid() && Remembers(st, now, open) && !e.OnField?
    ensures Remembers(st, Step(now, e), open)
  {
  }

  /** The jobs that a parsed history calls for; a detecting proxy makes none. */
  function Parsed(st: State, pairs: seq<(Field, Field)>): seq<JobView>
    requires st.Valid()
  {
    if st.address == DETECT_PROXY then [] else JobsOf(st, pairs)
  }

  lemma ParsedAppend(st: State, pairs: seq<(Field, Field)>, pair: (Field, Field))
    requires st.Valid()
    ensures Parsed(st, pairs + [pair]) == Parsed(st, pairs) + if st.address == DETECT_PROXY then [] else [JobOf(st, pair)]
  {
  }

  lemma CandidatesAppend(st: State, init: seq<Event>, f: Field, candidate: Option<JobView>)
    requires st.Valid() && candidate == Run(st, init).Candidate(f)
    ensures Candidates(st, init + [OnField(f)])
      == Candidates(st, init) + if candidate.Some? then [candidate.value] else []
  {
    assert (init + [OnField(f)])[..|init|] == init;
  }

  lemma CandidatesStep(st: State, init: seq<Event>, f: Field, pairs: seq<(Field, Field)>, open: Option<Field>)
    requires st.Valid() && Candidates(st, init) == Parsed(st, pairs)
    requires Remembers(st, Run(st, init), open)
    ensures var more := pairs + if open.Some? && !MarkOf(st, f).Balance? then [(open.value, f)] else [];
      Candidates(st, init + [OnField(f)]) == Parsed(st, more)
  {
    var candidate := Run(st, init).Candidate(f);
    FieldStep(st, Run(st, init), open, f);
    CandidatesAppend(st, init, f, candidate);
    if open.Some? && !MarkOf(st, f).Balance? {
      ParsedAppend(st, pairs, (open.value, f));
    } else {
      assert pairs + [] == pairs;
    }
  }

  /** Over every run the candidate jobs are those of the parsed history, in its order. */
  lemma {:induction false} CandidatesAreParsed(st: State, es: seq<Event>)
    requires st.Valid() && st.recvCount == 0
    ensures Candidates(st, es) == Parsed(st, Pairs(Marks(st, es)))
    ensures Remembers(st, Run(st, es), Open(Marks(st, es)))
  {
    if es != [] {
      var init, e := es[..|es| - 1], es[|es| - 1];
      CandidatesAreParsed(st, init);
      var ms := Marks(st, init);
      if e.OnField? {
        assert es == init + [OnField(e.field)];
        ParseOneMore(ms, MarkOf(st, e.field));
        FieldStep(st, Run(st, init), Open(ms), e.field);
        CandidatesStep(st, init, e.field, Pairs(ms), Open(ms));
      } else {
        assert Marks(st, es) == ms;
        OtherStep(st, Run(st, init), Open(ms), e);
      }
    }
  }

  /** The low half of a 64-bit nonce is the low four of its eight bytes. */
  lemma LowNonceBytes(nonce: uint64)
    ensures BigEndian(nonce, 8)[4..] == BigEndian(nonce % TWO_32, 4)
  {
    var all := BigEndian(nonce, 8);
    PowersOf256();
    ValueOfPadded(nonce, 256, 8);
    assert all == all[..4] + all[4..];
    ValueConcat(all[..4], all[4..], 256);
    ValueBound(all[4..], 256);
    DivModUnique(nonce, TWO_32, Value(all[..4], 256), Value(all[4..], 256));
    PaddedOfValue(all[4..], 256);
  }

  /** A made job is consistent, and its blob is first field, address, nonce. */
  lemma MadeJob(st: State, blobBytes: seq<byte>, id: string, nonce: uint64, target: string)
    requires st.Valid() && |blobBytes| == 64
    ensures var j := st.MakeJob(blobBytes, id, nonce, target);
      && j.Consistent()
      && j.currentBlob[..32] == blobBytes[..32]
      && j.currentBlob[32..56] == st.addressHash
      && j.currentBlob[56..] == BigEndian(nonce, 8)
      && HexDecode(j.SeedHash) == Some(blobBytes[32..])
      && j.ID == id && j.Target == target && j.Algo == "rx/xdag"
      && j.initialNonce == j.currentNonce == nonce % 0x1_0000_0000
  {
    LowNonceBytes(nonce);
    HexRoundTrip(blobBytes[32..]);
  }

  /** Comparing 32 characters of two blobs is comparing 16 bytes. */
  lemma AdoptsExactly(st: State, e: Event)
    requires st.Valid() && e.OnField? && st.Candidate(e.field).Some?
    ensures var c := st.Candidate(e.field).value;
      Adopts(st, e) <==> st.job.Blob == "" || st.job.currentBlob[..16] != c.currentBlob[..16]
  {
    var c := st.Candidate(e.field).value;
    if st.job.Blob != "" {
      HexPrefixInjective(st.job.currentBlob, c.currentBlob, 16);
    }
  }

  /** The jobs that a run adopts. */
  function Adoptions(st: State, es: seq<Event>): seq<JobView>
    requires st.Valid()
  {
    if es == [] then []
    else
      var before, e := Run(st, es[..|es| - 1]), es[|es| - 1];
      Adoptions(st, es[..|es| - 1]) + if Adopts(before, e) then [before.Candidate(e.field).value] else []
  }

  /** The current job is the last adopted one, but for rotations of its nonce. */
  ghost predicate Continues(current: JobView, adopted: JobView) {
    && current.Consistent() && adopted.Consistent()
    && current.currentBlob[..NONCE_OFFSET] == adopted.currentBlob[..NONCE_OFFSET]
    && current.ID == adopted.ID && current.SeedHash == adopted.SeedHash && current.Target == adopted.Target
  }

  lemma JobKept(st: State, e: Event)
    requires st.Valid() && e.Possible() && !Adopts(st, e)
    ensures Step(st, e).job == if e.OnNextJob? then st.job.Next() else st.job
  {
  }

  lemma JobAdopted(st: State, e: Event)
    requires st.Valid() && Adopts(st, e)
    ensures Step(st, e).job == st.Candidate(e.field).value
    ensures Step(st, e).job.Consistent()
  {
    MadeJob(st, st.recvByte[..32] + e.field.Data(), e.field.id, e.field.nonce, e.field.target);
  }

  lemma NextContinues(current: JobView, adopted: JobView)
    requires Continues(current, adopted)
    ensures Continues(current.Next(), adopted)
  {
    RotatedKeeps(current, 1);
    assert Rotated(current, 1) == Rotated(current, 0).Next() == current.Next();
  }

  lemma SamePrefix(a: JobView, b: JobView)
    requires Continues(a, b)
    ensures a.currentBlob[..16] == b.currentBlob[..16] && a.Blob != ""
  {
    assert a.currentBlob[..16] == a.currentBlob[..NONCE_OFFSET][..16];
    assert b.currentBlob[..16] == b.currentBlob[..NONCE_OFFSET][..16];
  }

  ghost predicate Chain(js: seq<JobView>, current: JobView) {
    && (forall i | 0 <= i < |js| :: js[i].Consistent())
    && (forall i | 0 <= i < |js| - 1 :: js[i].currentBlob[..16] != js[i + 1].currentBlob[..16])
    && (js != [] ==> Continues(current, js[|js| - 1]))
  }

  lemma ChainGrows(js: seq<JobView>, current: JobView, next: JobView)
    requires Chain(js, current) && next.Consistent()
    requires js != [] ==> js[|js| - 1].currentBlob[..16] != next.currentBlob[..16]
    ensures Chain(js + [next], next)
  {
  }

  lemma ChainStep(st: State, js: seq<JobView>, e: Event)
    requires st.Valid() && e.Possible() && Chain(js, st.job)
    ensures Chain(js + (if Adopts(st, e) then [st.Candidate(e.field).value] else []), Step(st, e).job)
  {
    if js != [] {
      SamePrefix(st.job, js[|js| - 1]);
      NextContinues(st.job, js[|js| - 1]);
    }
    if Adopts(st, e) {
      JobAdopted(st, e);
      AdoptsExactly(st, e);
      ChainGrows(js, st.job, Step(st, e).job);
    } else {
      JobKept(st, e);
      assert js + [] == js;
    }
  }

  /** Over every run two jobs adopted in a row differ in their first sixteen bytes, and
      the current job is the last adopted one with only its nonce moved on. */
  lemma {:induction false} AdoptedJobsDiffer(st: State, es: seq<Event>)
    requires st.Valid() && Possible(es)
    ensures Chain(Adoptions(st, es), Run(st, es).job)
  {
    if es != [] {
      var init, e := es[..|es| - 1], es[|es| - 1];
      AdoptedJobsDiffer(st, init);
      ChainStep(Run(st, init), Adoptions(st, init), e);
      assert Adoptions(st, es) == Adoptions(st, init) + if Adopts(Run(st, init), e) then [Run(st, init).Candidate(e.field).value] else [];
    }
  }
}
