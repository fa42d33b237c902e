/** Share aggregation: what reaches the pool is the best share of the window, and not
    more often than every four seconds. */
module Aggregation {
  import opened Encoding
  import opened Jobs
  import Positional
  import opened ProxyRuns
  import opened ProxySteps
  import opened Words
  import opened Wrappers
  import XdagAddress

  /** A validated share of the current job. */
  datatype Entry = Entry(result: nat, nonce: seq<byte>)

  function EntryOf(s: Share): Entry
    requires s.WellFormed()
  {
    Entry(s.ResultValue(), s.NonceBytes())
  }

  /** The shares accepted since the last send or job change, from the history alone. */
  function Window(st: State, es: seq<Event>): seq<Entry>
    requires st.Valid()
  {
    if es == [] then []
    else NextWindow(Run(st, es[..|es| - 1]), Window(st, es[..|es| - 1]), es[|es| - 1])
  }

  function NextWindow(st: State, w: seq<Entry>, e: Event): seq<Entry>
    requires st.Valid()
  {
    if Adopts(st, e) || Sends(st, e) then []
    else if Accepts(st, e) then w + [EntryOf(e.share)]
    else w
  }

  /** The earliest of the entries with the least result. */
  function Best(w: seq<Entry>): Entry
    requires w != []
  {
    var last := w[|w| - 1];
    if |w| == 1 then last
    else
      var best := Best(w[..|w| - 1]);
      if last.result < best.result then last else best
  }

  lemma {:induction false} BestIsEarliestMinimum(w: seq<Entry>) returns (i: nat)
    requires w != []
    ensures i < |w| && Best(w) == w[i]
    ensures forall j | 0 <= j < |w| :: w[i].result <= w[j].result
    ensures forall j | 0 <= j < i :: w[i].result < w[j].result
  {
    var m := |w| - 1;
    if m == 0 {
      i := 0;
    } else {
      i := BestIsEarliestMinimum(w[..m]);
      assert forall j | 0 <= j < m :: w[..m][j] == w[j];
      if w[m].result < w[i].result {
        i := m;
      }
    }
  }

  ghost predicate Sized(w: seq<Entry>) {
    forall i | 0 <= i < |w| :: |w[i].nonce| == 4 && w[i].result <= MAX_UINT64
  }

  lemma SizedAppend(w: seq<Entry>, s: Share)
    requires Sized(w) && s.WellFormed()
    ensures Sized(w + [EntryOf(s)])
  {
  }

  lemma NonceWordBytes(s: Share)
    requires s.WellFormed()
    ensures LittleEndian(NonceWord(s), 4) == s.NonceBytes()
  {
    LittleEndianRoundTrip(s.NonceBytes());
  }

  /** miniResult and miniNonce are the best entry, unless there is none below 2^64-1. */
  ghost predicate Tracks(st: State, w: seq<Entry>) {
    && Sized(w)
    && st.miniResult == (if w == [] then MAX_UINT64 else Best(w).result)
    && (st.miniResult < MAX_UINT64 ==> LittleEndian(st.miniNonce, 4) == Best(w).nonce)
  }

  lemma BestAfter(w: seq<Entry>, x: Entry)
    ensures w == [] ==> Best(w + [x]) == x
    ensures w != [] ==> Best(w + [x]) == if x.result < Best(w).result then x else Best(w)
  {
    assert (w + [x])[..|w|] == w;
  }

  lemma TracksOn(st: State, w: seq<Entry>, next: State)
    requires Tracks(st, w) && next.miniResult == st.miniResult && next.miniNonce == st.miniNonce
    ensures Tracks(next, w)
  {
  }

  lemma TracksBetter(st: State, w: seq<Entry>, s: Share, next: State)
    requires Tracks(st, w) && s.WellFormed() && s.ResultValue() < st.miniResult
    requires next.miniResult == s.ResultValue() && next.miniNonce == NonceWord(s)
    ensures Tracks(next, w + [EntryOf(s)])
  {
    SizedAppend(w, s);
    BestAfter(w, EntryOf(s));
    NonceWordBytes(s);
    assert Best(w + [EntryOf(s)]) == EntryOf(s);
  }

  lemma TracksWorse(st: State, w: seq<Entry>, s: Share, next: State)
    requires Tracks(st, w) && s.WellFormed() && s.ResultValue() >= st.miniResult
    requires next.miniResult == st.miniResult && next.miniNonce == st.miniNonce
    ensures Tracks(next, w + [EntryOf(s)])
  {
    SizedAppend(w, s);
    BestAfter(w, EntryOf(s));
  }

  /** What a share does to miniResult and miniNonce, branch by branch. */
  lemma ShareIgnored(st: State, s: Share, now: int)
    requires !st.Accepts(s)
    ensures st.Submit(s, now).miniResult == st.miniResult && st.Submit(s, now).miniNonce == st.miniNonce
  {
  }

  lemma ShareSent(st: State, s: Share, now: int)
    requires st.Accepts(s) && st.IsDue(now)
    ensures st.Submit(s, now).miniResult == MAX_UINT64 && st.Submit(s, now).miniNonce == st.miniNonce
  {
  }

  lemma ShareBetter(st: State, s: Share, now: int)
    requires st.Accepts(s) && !st.IsDue(now) && s.ResultValue() < st.miniResult
    ensures st.Submit(s, now).miniResult == s.ResultValue() && st.Submit(s, now).miniNonce == NonceWord(s)
  {
  }

  lemma ShareWorse(st: State, s: Share, now: int)
    requires st.Accepts(s) && !st.IsDue(now) && s.ResultValue() >= st.miniResult
    ensures st.Submit(s, now).miniResult == st.miniResult && st.Submit(s, now).miniNonce == st.miniNonce
  {
  }

  lemma TracksShare(st: State, w: seq<Entry>, s: Share, now: int)
    requires st.Valid() && Tracks(st, w) && s.JobID != ""
    ensures Tracks(st.Submit(s, now), NextWindow(st, w, OnShare(s, now)))
  {
    var next := st.Submit(s, now);
    if !st.Accepts(s) {
      ShareIgnored(st, s, now);
      TracksOn(st, w, next);
    } else if st.IsDue(now) {
      ShareSent(st, s, now);
    } else if s.ResultValue() < st.miniResult {
      ShareBetter(st, s, now);
      TracksBetter(st, w, s, next);
    } else {
      ShareWorse(st, s, now);
      TracksWorse(st, w, s, next);
    }
  }

  lemma TracksMessage(st: State, w: seq<Entry>, s: Share, now: int)
    requires st.Valid() && Tracks(st, w) && s.JobID != "" && st.Accepts(s) && st.IsDue(now)
    ensures var best := Best(w + [EntryOf(s)]);
      && |best.nonce| == 4 && best.result <= MAX_UINT64
      && st.SubmitMessage(s, now)
        == Some(st.Message(if best.result < MAX_UINT64 then best.nonce else LittleEndian(st.miniNonce, 4)))
  {
    BestAfter(w, EntryOf(s));
    if w != [] {
      var i := BestIsEarliestMinimum(w);
    }
  }

  lemma TracksField(st: State, w: seq<Entry>, f: Field)
    requires st.Valid() && Tracks(st, w)
    ensures Tracks(st.Notify(f), NextWindow(st, w, OnField(f)))
  {
    var next := st.Notify(f);
    assert if Adopts(st, OnField(f)) then next.miniResult == MAX_UINT64
      else next.miniResult == st.miniResult && next.miniNonce == st.miniNonce;
  }

  lemma TracksStep(st: State, w: seq<Entry>, e: Event)
    requires st.Valid() && Tracks(st, w) && e.Possible()
    ensures Tracks(Step(st, e), NextWindow(st, w, e))
  {
    match e
    case OnShare(s, now) => TracksShare(st, w, s, now);
    case OnField(f) => TracksField(st, w, f);
    case _ =>
  }

  lemma {:induction false} RunTracks(st: State, es: seq<Event>)
    requires st.Valid() && st.miniResult == MAX_UINT64 && Possible(es)
    ensures Tracks(Run(st, es), Window(st, es))
  {
    if es != [] {
      RunTracks(st, es[..|es| - 1]);
      TracksStep(Run(st, es[..|es| - 1]), Window(st, es[..|es| - 1]), es[|es| - 1]);
    }
  }

  lemma SendBest(st: State, w: seq<Entry>, s: Share, now: int)
    requires st.Valid() && Tracks(st, w) && s.JobID != "" && st.Accepts(s) && st.IsDue(now)
    ensures var best, lingering := Best(w + [EntryOf(s)]), LittleEndian(st.miniNonce, 4);
      && (best.result < MAX_UINT64 ==> st.SubmitMessage(s, now) == Some(st.Message(best.nonce)))
      && (best.result >= MAX_UINT64 ==> st.SubmitMessage(s, now) == Some(st.Message(lingering)))
      && (st.SubmitMessage(s, now) == Some(st.Message(best.nonce))
          <==> best.result < MAX_UINT64 || lingering == best.nonce)
  {
    TracksMessage(st, w, s, now);
    MessageNonce(st, Best(w + [EntryOf(s)]).nonce, LittleEndian(st.miniNonce, 4));
  }

  /** Whether a share lowers the minimum of the window. */
  predicate Lowers(w: seq<Entry>, x: Entry) {
    x.result < if w == [] then MAX_UINT64 else Best(w).result
  }

  /** The nonce that lingers in miniNonce, from the history alone: that of the last share
      that lowered the minimum of its window and was not sent at once. */
  function Lingering(st: State, es: seq<Event>): seq<byte>
    requires st.Valid()
  {
    if es == [] then LittleEndian(st.miniNonce, 4)
    else
      var init, e := es[..|es| - 1], es[|es| - 1];
      NextLingering(Run(st, init), Window(st, init), Lingering(st, init), e)
  }

  function NextLingering(st: State, w: seq<Entry>, nonce: seq<byte>, e: Event): seq<byte> {
    if Accepts(st, e) && !Sends(st, e) && Lowers(w, EntryOf(e.share)) then e.share.NonceBytes() else nonce
  }

  lemma LingersShare(st: State, w: seq<Entry>, s: Share, now: int)
    requires st.Valid() && Tracks(st, w) && s.JobID != ""
    ensures LittleEndian(st.Submit(s, now).miniNonce, 4)
      == NextLingering(st, w, LittleEndian(st.miniNonce, 4), OnShare(s, now))
  {
    if !st.Accepts(s) {
      ShareIgnored(st, s, now);
    } else if st.IsDue(now) {
      ShareSent(st, s, now);
    } else if s.ResultValue() < st.miniResult {
      ShareBetter(st, s, now);
      NonceWordBytes(s);
    } else {
      ShareWorse(st, s, now);
    }
  }

  lemma LingersStep(st: State, w: seq<Entry>, e: Event)
    requires st.Valid() && Tracks(st, w) && e.Possible()
    ensures LittleEndian(Step(st, e).miniNonce, 4) == NextLingering(st, w, LittleEndian(st.miniNonce, 4), e)
  {
    match e
    case OnShare(s, now) => LingersShare(st, w, s, now);
    case _ => assert Step(st, e).miniNonce == st.miniNonce;
  }

  lemma {:induction false} RunLingers(st: State, es: seq<Event>)
    requires st.Valid() && st.miniResult == MAX_UINT64 && Possible(es)
    ensures LittleEndian(Run(st, es).miniNonce, 4) == Lingering(st, es)
  {
    if es != [] {
      var init := es[..|es| - 1];
      RunLingers(st, init);
      RunTracks(st, init);
      LingersStep(Run(st, init), Window(st, init), es[|es| - 1]);
    }
  }

  /** Whatever happened before, a share that is due makes the proxy send the best share
      of the window it closes. Only when no result of that window is below 2^64-1 the
      nonce sent is the one that lingers from earlier, and it is the best share's exactly
      if the two happen to be equal. */
  lemma SentShareIsBest(st: State, es: seq<Event>, s: Share, now: int)
    requires st.Valid() && st.miniResult == MAX_UINT64 && Possible(es) && s.JobID != ""
    requires Run(st, es).Accepts(s) && Run(st, es).IsDue(now)
    ensures var before := Run(st, es);
      var best := Best(Window(st, es) + [EntryOf(s)]);
      && (best.result < MAX_UINT64 ==> before.SubmitMessage(s, now) == Some(before.Message(best.nonce)))
      && (best.result >= MAX_UINT64 ==> before.SubmitMessage(s, now) == Some(before.Message(Lingering(st, es))))
      && (before.SubmitMessage(s, now) == Some(before.Message(best.nonce))
          <==> best.result < MAX_UINT64 || Lingering(st, es) == best.nonce)
  {
    RunTracks(st, es);
    RunLingers(st, es);
    SendBest(Run(st, es), Window(st, es), s, now);
  }

  lemma MessageNonce(st: State, a: seq<byte>, b: seq<byte>)
    requires |st.job.currentBlob| >= 60 && |a| == |b|
    ensures st.Message(a) == st.Message(b) <==> a == b
  {
    var header := LittleEndian(32, 4) + st.job.currentBlob[32..60];
    assert st.Message(a)[|header|..] == a && st.Message(b)[|header|..] == b;
  }

  /** Such a window exists: the first share of a job has the largest result there is, and
      the pool receives nonce zero in its place. */
  lemma WrongNonceIsSent(st: State, now: int) returns (s: Share)
    requires st.Valid() && !st.isClosed && st.hasConn && st.job.ID != "" && !(FAKE_JOB_PREFIX <= st.job.ID)
    requires st.miniResult == MAX_UINT64 && st.miniNonce == 0 && st.IsDue(now)
    ensures s.JobID == st.job.ID && st.Accepts(s) && s.NonceBytes() == [1, 0, 0, 0]
    ensures st.SubmitMessage(s, now) == Some(st.Message([0, 0, 0, 0]))
    ensures st.SubmitMessage(s, now) != Some(st.Message(s.NonceBytes()))
  {
    var ones: seq<byte> := seq(32, _ => 255);
    s := Share(st.job.ID, HexEncode([1, 0, 0, 0]), HexEncode(ones));
    HexRoundTrip([1, 0, 0, 0]);
    HexRoundTrip(ones);
    LargestResult(ones[24..]);
    ZeroWord();
    MessageNonce(st, [0, 0, 0, 0], [1, 0, 0, 0]);
    assert s.NonceBytes() == [1, 0, 0, 0];
    assert s.NonceBytes()[0] == 1;
  }

  /** Of two fields, one at least is not the address with a balance. */
  lemma OtherField(address: seq<byte>) returns (data: seq<byte>)
    ensures |data| == 32 && XdagAddress.AddressOf(data) != address && !EndsInZeros(data)
  {
    var ones: seq<byte>, twos: seq<byte> := seq(32, _ => 1), seq(32, _ => 2);
    XdagAddress.HashOfAddressOf(ones);
    XdagAddress.HashOfAddressOf(twos);
    assert (ones[..24] + Positional.Zeros(8))[0] == 1 && (twos[..24] + Positional.Zeros(8))[0] == 2;
    data := if XdagAddress.AddressOf(ones) == address then twos else ones;
    assert data[24..][0] == data[24] != 0;
  }

  /** Two fields make a connected new proxy adopt its first job. */
  lemma FirstJob(st: State, f: Field)
    requires st.Valid() && st.hasConn && !st.isClosed && st.recvCount == 0 && st.job == EMPTY_JOB
    requires |f.notif| == 32 && !st.IsBalance(f.notif) && !EndsInZeros(f.notif) && st.address != DETECT_PROXY
    ensures var r := st.Notify(f).Notify(f);
      && r.job.ID == f.id && r.miniResult == MAX_UINT64 && r.lastSend == f.now
      && r.miniNonce == st.miniNonce && r.hasConn && !r.isClosed
  {
    assert f.Data() == f.notif;
    var mid := st.Notify(f);
    assert mid.recvCount == 1 && mid.job == EMPTY_JOB && mid.address == st.address;
  }

  /** A new proxy gets there: it connects, receives its first job, and four seconds later
      its first share. */
  lemma WrongNonceIsReached(address: seq<byte>, addressHash: seq<byte>, prevJobID: string, id: string, start: int)
    returns (es: seq<Event>, s: Share, now: int)
    requires |addressHash| == 24 && address != DETECT_PROXY && id != "" && !(FAKE_JOB_PREFIX <= id)
    ensures var st := NewProxy(address, addressHash, prevJobID, start);
      && st.Valid() && st.miniResult == MAX_UINT64 && Possible(es) && Monotone(start, es)
      && s.JobID == id && Run(st, es).Accepts(s) && Run(st, es).IsDue(now) && Latest(start, es) <= now
      && Run(st, es).SubmitMessage(s, now) == Some(Run(st, es).Message([0, 0, 0, 0]))
      && Run(st, es).SubmitMessage(s, now) != Some(Run(st, es).Message(s.NonceBytes()))
  {
    var st := NewProxy(address, addressHash, prevJobID, start);
    var data := OtherField(address);
    var f := Field(data, id, 0, "", start);
    es := ConnectAndTwoFields(st, f);
    var connected := st.Connect(true, []);
    FirstJob(connected, f);
    now := start + SEND_INTERVAL;
    s := WrongNonceIsSent(connected.Notify(f).Notify(f), now);
  }

  lemma ConnectAndTwoFields(st: State, f: Field) returns (es: seq<Event>)
    requires st.Valid() && st.lastSend <= f.now && !st.isClosed
    ensures Run(st, es) == st.Connect(true, []).Notify(f).Notify(f)
    ensures Possible(es) && Monotone(st.lastSend, es) && Latest(st.lastSend, es) == f.now
  {
    var t := st.lastSend;
    var connected, half := [OnConnect(true, [])], [OnConnect(true, []), OnField(f)];
    es := [OnConnect(true, []), OnField(f), OnField(f)];
    Extended(st, t, [], OnConnect(true, []), connected);
    Extended(st, t, connected, OnField(f), half);
    Extended(st, t, half, OnField(f), es);
  }

  lemma Extended(st: State, t: int, es: seq<Event>, e: Event, more: seq<Event>)
    requires st.Valid() && more == es + [e] && Monotone(t, es)
    requires Reading(e).Some? ==> Reading(e).value >= Latest(t, es)
    ensures Run(st, more) == Step(Run(st, es), e) && Monotone(t, more)
    ensures Latest(t, more) == if Reading(e).Some? then Reading(e).value else Latest(t, es)
  {
    assert more[..|es|] == es;
  }

  lemma {:induction false} AllOnes(bs: seq<byte>)
    requires forall i | 0 <= i < |bs| :: bs[i] == 255
    ensures Positional.Value(bs, 256) == Positional.Pow(256, |bs|) - 1
  {
    if bs != [] {
      var init := bs[..|bs| - 1];
      AllOnes(init);
      assert bs == init + [255];
      Positional.ValueAppend(init, 255, 256);
    }
  }

  lemma LargestResult(bs: seq<byte>)
    requires |bs| == 8 && forall i | 0 <= i < 8 :: bs[i] == 255
    ensures FromLittleEndian(bs) == MAX_UINT64
  {
    AllOnes(Positional.Reversed(bs));
    PowersOf256();
  }

  lemma ZeroWord()
    ensures LittleEndian(0, 4) == [0, 0, 0, 0]
  {
    Positional.PaddedOfValue([0, 0, 0, 0], 256);
    Positional.ValueZeros(4, 256);
    assert Positional.Zeros(4) == [0, 0, 0, 0];
  }

  // Spacing.

  function SendTimes(st: State, es: seq<Event>): seq<int>
    requires st.Valid()
  {
    if es == [] then []
    else
      var init, e := es[..|es| - 1], es[|es| - 1];
      SendTimes(st, init) + if Sends(Run(st, init), e) then [e.now] else []
  }

  function Reading(e: Event): Option<int> {
    match e
    case OnShare(_, now) => Some(now)
    case OnField(f) => Some(f.now)
    case _ => None
  }

  /** The last clock reading of a run that starts at time t. */
  function Latest(t: int, es: seq<Event>): int {
    if es == [] then t
    else if Reading(es[|es| - 1]).Some? then Reading(es[|es| - 1]).value
    else Latest(t, es[..|es| - 1])
  }

  ghost predicate Monotone(t: int, es: seq<Event>) {
    es == [] ||
    (&& Monotone(t, es[..|es| - 1])
     && (Reading(es[|es| - 1]).Some? ==> Reading(es[|es| - 1]).value >= Latest(t, es[..|es| - 1])))
  }

  /** Four seconds between one and the next, the first from `from`, none after `to`. */
  ghost predicate Spaced(ts: seq<int>, from: int, to: int) {
    && (forall i | 0 <= i < |ts| - 1 :: ts[i] + SEND_INTERVAL <= ts[i + 1])
    && (ts != [] ==> from + SEND_INTERVAL <= ts[0] && ts[|ts| - 1] <= to)
  }

  lemma SpacedStep(st: State, e: Event, ts: seq<int>, from: int, latest: int)
    requires st.Valid() && Spaced(ts, from, st.lastSend) && from <= st.lastSend <= latest
    requires Reading(e).Some? ==> latest <= Reading(e).value
    ensures Spaced(ts + (if Sends(st, e) then [e.now] else []), from, Step(st, e).lastSend)
    ensures from <= Step(st, e).lastSend <= if Reading(e).Some? then Reading(e).value else latest
  {
    LastSendStep(st, e);
  }

  lemma LastSendStep(st: State, e: Event)
    requires st.Valid()
    ensures if Sends(st, e) then st.lastSend + SEND_INTERVAL <= e.now == Step(st, e).lastSend
      else Step(st, e).lastSend == st.lastSend || (e.OnField? && Step(st, e).lastSend == e.field.now)
  {
  }

  /** With a clock that does not run backwards, sends are at least four seconds apart,
      and the first is at least four seconds after the start. */
  lemma {:induction false} SendsAreSpaced(st: State, es: seq<Event>)
    requires st.Valid() && Monotone(st.lastSend, es)
    ensures Spaced(SendTimes(st, es), st.lastSend, Run(st, es).lastSend)
    ensures st.lastSend <= Run(st, es).lastSend <= Latest(st.lastSend, es)
  {
    if es != [] {
      var init, e := es[..|es| - 1], es[|es| - 1];
      SendsAreSpaced(st, init);
      SpacedStep(Run(st, init), e, SendTimes(st, init), st.lastSend, Latest(st.lastSend, init));
      assert SendTimes(st, es) == SendTimes(st, init) + if Sends(Run(st, init), e) then [e.now] else [];
    }
  }
}
