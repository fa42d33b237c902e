/** What a proxy keeps of its history: counters, the ids of the last jobs, and whose wallet
    its jobs and its messages name. */
module ProxyHistory {
  import opened Encoding
  import opened Framing
  import opened Jobs
  import opened ProxyRuns
  import opened ProxySteps
  import opened Wire
  import opened Words
  import opened Wrappers

  // Counters.

  function Counts(st: State, e: Event): nat {
    if e.OnShare? && st.SubmitOutcome(e.share) == Outcome.Counted then 1 else 0
  }

  function FieldsOut(st: State, e: Event): nat {
    if Sends(st, e) then 1
    else if e.OnConnect? && e.dialed && !st.isClosed then if e.minerName == [] then 16 else 17
    else 0
  }

  /** Shares counted, fields received and fields sent in a run. */
  function SharesIn(st: State, es: seq<Event>): nat
    requires st.Valid()
  {
    if es == [] then 0 else SharesIn(st, es[..|es| - 1]) + Counts(Run(st, es[..|es| - 1]), es[|es| - 1])
  }

  function FieldsIn(es: seq<Event>): nat {
    if es == [] then 0 else FieldsIn(es[..|es| - 1]) + if es[|es| - 1].OnField? then 1 else 0
  }

  function FieldsSent(st: State, es: seq<Event>): nat
    requires st.Valid()
  {
    if es == [] then 0 else FieldsSent(st, es[..|es| - 1]) + FieldsOut(Run(st, es[..|es| - 1]), es[|es| - 1])
  }

  lemma StepCounts(st: State, e: Event)
    requires st.Valid() && e.Possible()
    ensures Step(st, e).shares == st.shares + Counts(st, e)
    ensures Step(st, e).fieldIn == st.fieldIn + if e.OnField? then 1 else 0
    ensures Step(st, e).fieldOut == st.fieldOut + FieldsOut(st, e)
  {
  }

  /** Over every run the three counters are what happened. */
  lemma {:induction false} CountersAreRight(st: State, es: seq<Event>)
    requires st.Valid() && Possible(es)
    ensures Run(st, es).shares == st.shares + SharesIn(st, es)
    ensures Run(st, es).fieldIn == st.fieldIn + FieldsIn(es)
    ensures Run(st, es).fieldOut == st.fieldOut + FieldsSent(st, es)
  {
    if es != [] {
      var init := es[..|es| - 1];
      CountersAreRight(st, init);
      StepCounts(Run(st, init), es[|es| - 1]);
    }
  }

  // Job ids.

  /** The ids a proxy remembers at first, and those of the jobs that it adopts. */
  function Ids(st: State, es: seq<Event>): (ids: seq<string>)
    requires st.Valid()
    ensures |ids| >= 4
  {
    if es == [] then [st.beforeBeforePrevJobID, st.beforePrevJobID, st.prevJobID, st.job.ID]
    else
      var before, e := Run(st, es[..|es| - 1]), es[|es| - 1];
      Ids(st, es[..|es| - 1]) + if Adopts(before, e) then [before.Candidate(e.field).value.ID] else []
  }

  /** The last four ids are those of the current job and the three before it. */
  ghost predicate LastFour(st: State, ids: seq<string>) {
    var n := |ids|;
    && n >= 4 && st.job.ID == ids[n - 1] && st.prevJobID == ids[n - 2]
    && st.beforePrevJobID == ids[n - 3] && st.beforeBeforePrevJobID == ids[n - 4]
  }

  lemma IdsStep(st: State, e: Event, ids: seq<string>)
    requires st.Valid() && e.Possible() && LastFour(st, ids)
    ensures LastFour(Step(st, e), ids + if Adopts(st, e) then [st.Candidate(e.field).value.ID] else [])
  {
    if Adopts(st, e) {
      IdsAdopted(st, e);
    } else {
      IdsKept(st, e);
      assert ids + [] == ids;
    }
  }

  lemma IdsAdopted(st: State, e: Event)
    requires st.Valid() && Adopts(st, e)
    ensures var r := Step(st, e);
      && r.job.ID == st.Candidate(e.field).value.ID && r.prevJobID == st.job.ID
      && r.beforePrevJobID == st.prevJobID && r.beforeBeforePrevJobID == st.beforePrevJobID
  {
  }

  lemma IdsKept(st: State, e: Event)
    requires st.Valid() && e.Possible() && !Adopts(st, e)
    ensures var r := Step(st, e);
      && r.job.ID == st.job.ID && r.prevJobID == st.prevJobID
      && r.beforePrevJobID == st.beforePrevJobID && r.beforeBeforePrevJobID == st.beforeBeforePrevJobID
  {
  }

  /** Over every run. */
  lemma {:induction false} LastJobsAreKnown(st: State, es: seq<Event>)
    requires st.Valid() && Possible(es)
    ensures LastFour(Run(st, es), Ids(st, es))
  {
    if es != [] {
      var init, e := es[..|es| - 1], es[|es| - 1];
      LastJobsAreKnown(st, init);
      IdsStep(Run(st, init), e, Ids(st, init));
      assert Ids(st, es) == Ids(st, init) + if Adopts(Run(st, init), e) then [Run(st, init).Candidate(e.field).value.ID] else [];
    }
  }

  // The wallet.

  /** A job with an id is for the wallet whose hash this is. */
  ghost predicate NamesWallet(st: State, addressHash: seq<byte>) {
    && st.addressHash == addressHash && |addressHash| == 24
    && (st.job.ID != "" ==> |st.job.currentBlob| == BLOB_LENGTH && st.job.currentBlob[32..56] == addressHash)
  }

  lemma WalletStep(st: State, e: Event, addressHash: seq<byte>)
    requires st.Valid() && e.Possible() && NamesWallet(st, addressHash)
    ensures NamesWallet(Step(st, e), addressHash)
  {
    if Adopts(st, e) {
      JobAdopted(st, e);
      MadeJob(st, st.recvByte[..32] + e.field.Data(), e.field.id, e.field.nonce, e.field.target);
    } else {
      JobKept(st, e);
      if e.OnNextJob? && st.job.ID != "" {
        NextKeepsWallet(st.job);
      }
    }
    assert Step(st, e).addressHash == st.addressHash;
  }

  lemma NextKeepsWallet(j: JobView)
    requires |j.currentBlob| == BLOB_LENGTH
    ensures j.Next().currentBlob[32..56] == j.currentBlob[32..56] && |j.Next().currentBlob| == BLOB_LENGTH
  {
    RotatedKeeps(j, 1);
    var next := Rotated(j, 1);
    assert next == Rotated(j, 0).Next() == j.Next();
    assert next.currentBlob[32..56] == next.currentBlob[..NONCE_OFFSET][32..56];
    assert j.currentBlob[32..56] == j.currentBlob[..NONCE_OFFSET][32..56];
  }

  lemma {:induction false} JobsNameWallet(st: State, es: seq<Event>)
    requires st.Valid() && st.job.ID == "" && Possible(es)
    ensures NamesWallet(Run(st, es), st.addressHash)
  {
    if es != [] {
      var init := es[..|es| - 1];
      JobsNameWallet(st, init);
      WalletStep(Run(st, init), es[|es| - 1], st.addressHash);
    }
  }

  lemma MessageParts(st: State, nonce: seq<byte>)
    requires |st.job.currentBlob| == BLOB_LENGTH && |nonce| == 4
    ensures st.Message(nonce)
      == [32, 0, 0, 0] + st.job.currentBlob[32..56] + st.job.currentBlob[56..60] + nonce
  {
    HeaderBytes();
    assert st.job.currentBlob[32..60] == st.job.currentBlob[32..56] + st.job.currentBlob[56..60];
  }

  /** Over every run of a new proxy, what is sent to the pool is a field of 32 bytes: the
      wallet's hash, the upper half of the job's initial nonce, and four bytes of nonce. */
  lemma MessagesNameWallet(st: State, es: seq<Event>, s: Share, now: int)
    requires st.Valid() && st.job.ID == "" && Possible(es) && s.JobID != ""
    requires Run(st, es).SubmitMessage(s, now).Some?
    ensures var before := Run(st, es);
      exists nonce: seq<byte> :: |nonce| == 4 && before.SubmitMessage(s, now).value
        == [32, 0, 0, 0] + st.addressHash + before.job.currentBlob[56..60] + nonce
  {
    JobsNameWallet(st, es);
    var before := Run(st, es);
    var nonce := if s.ResultValue() < before.miniResult then s.NonceBytes() else LittleEndian(before.miniNonce, 4);
    MessageParts(before, nonce);
  }
}
