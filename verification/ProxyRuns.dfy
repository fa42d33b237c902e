/** Runs of a proxy: any sequence of worker shares, pool fields and NextJob calls, of
    attempts to connect and of calls that close it. */
module ProxyRuns {
  import opened Jobs
  import opened ProxySteps
  import opened Words
  import opened Wrappers

  datatype Event =
    | OnShare(share: Share, now: int)
    | OnField(field: Field)
    | OnNextJob
    | OnConnect(dialed: bool, minerName: seq<byte>)
    | OnClose
  {
    /** Submit turns shares without a job id away before they get here. */
    predicate Possible() {
      OnShare? ==> share.JobID != ""
    }
  }

  function Step(st: State, e: Event): State
    requires st.Valid()
  {
    match e
    case OnShare(s, now) => st.Submit(s, now)
    case OnField(f) => st.Notify(f)
    case OnNextJob => st.NextJob()
    case OnConnect(dialed, minerName) => st.Connect(dialed, minerName)
    case OnClose => st.Close()
  }

  lemma NextJobValid(st: State)
    requires st.Valid()
    ensures st.NextJob().Valid()
  {
  }

  lemma NotifyValid(st: State, f: Field)
    requires st.Valid()
    ensures st.Notify(f).Valid()
  {
  }

  lemma StepValid(st: State, e: Event)
    requires st.Valid()
    ensures Step(st, e).Valid()
  {
    match e
    case OnShare(s, now) =>
    case OnField(f) => NotifyValid(st, f);
    case OnNextJob => NextJobValid(st);
    case OnConnect(_, _) =>
    case OnClose =>
  }

  ghost predicate Possible(es: seq<Event>) {
    forall i | 0 <= i < |es| :: es[i].Possible()
  }

  function Run(st: State, es: seq<Event>): (r: State)
    requires st.Valid()
    ensures r.Valid()
  {
    if es == [] then st
    else
      StepValid(Run(st, es[..|es| - 1]), es[|es| - 1]);
      Step(Run(st, es[..|es| - 1]), es[|es| - 1])
  }

  predicate Adopts(st: State, e: Event)
    requires st.Valid()
  {
    e.OnField? && st.Candidate(e.field).Some? && st.IsNews(st.Candidate(e.field).value)
  }

  predicate Accepts(st: State, e: Event) {
    e.OnShare? && st.Accepts(e.share)
  }

  predicate Sends(st: State, e: Event) {
    Accepts(st, e) && st.IsDue(e.now)
  }
}
