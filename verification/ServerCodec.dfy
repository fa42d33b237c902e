/** Request ids of the JSON-RPC server codec (server/stratum/codec.go), kept in a SafeMap
    between the request and its reply. Requests here carry an id. */
module ServerCodec {
  import opened SafeMaps
  import opened Words
  import opened Wrappers

  datatype Event<Id> = Read(id: Id) | Reply(number: uint64)

  /** The sequence number of the n-th accepted request; the counter wraps at 64 bits. */
  function Number(n: nat): uint64 {
    n % TWO_64
  }

  function Reads<Id>(es: seq<Event<Id>>): nat {
    if es == [] then 0 else Reads(es[..|es| - 1]) + if es[|es| - 1].Read? then 1 else 0
  }

  /** The request that a reply to number s would answer: the latest one read with that
      number, unless it has been answered since. From the history alone. */
  function Unanswered<Id>(es: seq<Event<Id>>, s: uint64): Option<Id> {
    if es == [] then None
    else
      var init, e := es[..|es| - 1], es[|es| - 1];
      if e.Read? && Number(Reads(es)) == s then Some(e.id)
      else if e.Reply? && e.number == s then None
      else Unanswered(init, s)
  }

  /** The calls that the codec makes on pending. */
  function Calls<Id>(es: seq<Event<Id>>): seq<Op<Id>> {
    if es == [] then []
    else
      var before := Calls(es[..|es| - 1]);
      match es[|es| - 1]
      case Read(id) => before + [OpSet(Number(Reads(es)), id)]
      case Reply(s) => if s in PlainRun(before) then before + [OpDel(s)] else before
  }

  lemma PlainRunAppend<Id>(ops: seq<Op<Id>>, op: Op<Id>)
    ensures PlainRun(ops + [op]) == PlainStep(PlainRun(ops), op)
  {
    assert (ops + [op])[..|ops|] == ops;
  }

  lemma {:induction false} PlainIsUnanswered<Id>(es: seq<Event<Id>>, s: uint64)
    ensures Unanswered(es, s) == if s in PlainRun(Calls(es)) then Some(PlainRun(Calls(es))[s]) else None
  {
    if es != [] {
      var before := Calls(es[..|es| - 1]);
      PlainIsUnanswered(es[..|es| - 1], s);
      match es[|es| - 1]
      case Read(id) => PlainRunAppend(before, OpSet(Number(Reads(es)), id));
      case Reply(r) => PlainRunAppend(before, OpDel(r));
    }
  }

  /** Over every interleaving pending holds exactly the unanswered requests, through all
      migrations of the SafeMap. */
  lemma PendingIsUnanswered<Id>(es: seq<Event<Id>>, s: uint64)
    ensures var pending := SafeMaps.Run(Calls(es)).Contents();
      Unanswered(es, s) == if s in pending then Some(pending[s]) else None
  {
    RunRefinesMap(Calls(es));
    PlainIsUnanswered(es, s);
  }

  /** The id of the n-th accepted request. */
  function IdOf<Id>(es: seq<Event<Id>>, n: nat): Id
    requires 1 <= n <= Reads(es)
  {
    if es[|es| - 1].Read? && Reads(es) == n then es[|es| - 1].id else IdOf(es[..|es| - 1], n)
  }

  /** While fewer than 2^64 requests have come, the reply with number s can only carry the
      id of the s-th request, and there is none for a number not given out. */
  lemma {:induction false} ReplyCarriesItsId<Id>(es: seq<Event<Id>>, s: uint64)
    requires Reads(es) < TWO_64
    ensures Unanswered(es, s).Some? ==> 1 <= s <= Reads(es) && Unanswered(es, s).value == IdOf(es, s)
  {
    if es != [] {
      ReplyCarriesItsId(es[..|es| - 1], s);
    }
  }

  /** After a reply to s there is nothing left to reply to s with, whatever follows, as
      long as the number is not given out anew. */
  lemma {:induction false} AtMostOneReply<Id>(es: seq<Event<Id>>, s: uint64, more: seq<Event<Id>>)
    requires Reads(es + [Event<Id>.Reply(s)] + more) < TWO_64 && 1 <= s <= Reads(es)
    ensures Unanswered(es + [Event<Id>.Reply(s)] + more, s) == None
  {
    var all := es + [Event<Id>.Reply(s)] + more;
    if more == [] {
      assert all[..|all| - 1] == es;
    } else {
      var init := more[..|more| - 1];
      assert all[..|all| - 1] == es + [Event<Id>.Reply(s)] + init;
      ReadsGrow(es, [Event<Id>.Reply(s)] + init);
      assert es + ([Event<Id>.Reply(s)] + init) == es + [Event<Id>.Reply(s)] + init;
      AtMostOneReply(es, s, init);
    }
  }

  lemma {:induction false} ReadsGrow<Id>(es: seq<Event<Id>>, more: seq<Event<Id>>)
    ensures Reads(es) <= Reads(es + more)
  {
    if more == [] {
      assert es + more == es;
    } else {
      var init := more[..|more| - 1];
      assert (es + more)[..|es + more| - 1] == es + init;
      ReadsGrow(es, init);
    }
  }

  /** The counter and the pending requests are those of the history. */
  ghost predicate Matches<Id>(counter: uint64, pending: Generations<Id>, es: seq<Event<Id>>) {
    counter == Number(Reads(es)) && pending == SafeMaps.Run(Calls(es))
  }

  lemma ReadMatches<Id>(counter: uint64, next: uint64, pending: Generations<Id>, es: seq<Event<Id>>, id: Id)
    requires Matches(counter, pending, es) && next == (counter + 1) % TWO_64
    ensures Matches(next, pending.Set(next, id), es + [Read(id)])
  {
    CallsAppend(es, Read(id));
    NextNumber(Reads(es));
  }

  class Codec<Id> {
    var counter: uint64
    const pending: SafeMap<Id>
    ghost var history: seq<Event<Id>>

    ghost predicate Valid()
      reads this, pending
    {
      Matches(counter, pending.State(), history)
    }

    constructor ()
      ensures Valid() && history == [] && fresh(pending)
    {
      counter, history := 0, [];
      pending := new SafeMap();
    }

    /** ReadRequestHeader, on a request that was parsed. */
    method ReadRequestHeader(id: Id) returns (s: uint64)
      requires Valid()
      modifies this, pending
      ensures Valid() && history == old(history) + [Read(id)]
      ensures s == Number(Reads(history))
    {
      s := (counter + 1) % TWO_64;
      ghost var before := pending.State();
      ReadMatches(counter, s, before, history, id);
      counter := s;
      pending.Set(counter, id);
      history := history + [Read(id)];
      assert pending.State() == before.Set(s, id);
    }

    /** WriteResponse: the id that the reply goes out with, or an error. */
    method WriteResponse(s: uint64) returns (id: Option<Id>)
      requires Valid()
      modifies this, pending
      ensures Valid() && history == old(history) + [Event<Id>.Reply(s)]
      ensures id == Unanswered(old(history), s)
    {
      CallsAppend(history, Event<Id>.Reply(s));
      RunRefinesMap(Calls(history));
      PendingIsUnanswered(history, s);
      id := pending.Get(s);
      history := history + [Event<Id>.Reply(s)];
      if id.None? {
        return;
      }
      pending.Del(s);
    }
  }

  lemma NextNumber(n: nat)
    ensures Number(n + 1) == (Number(n) + 1) % TWO_64
  {
  }

  lemma CallsAppend<Id>(es: seq<Event<Id>>, e: Event<Id>)
    ensures Reads(es + [e]) == Reads(es) + if e.Read? then 1 else 0
    ensures e.Read? ==>
      SafeMaps.Run(Calls(es + [e])) == SafeMaps.Run(Calls(es)).Set(Number(Reads(es) + 1), e.id)
    ensures e.Reply? && e.number in PlainRun(Calls(es)) ==>
      SafeMaps.Run(Calls(es + [e])) == SafeMaps.Run(Calls(es)).Del(e.number)
    ensures e.Reply? && e.number !in PlainRun(Calls(es)) ==>
      SafeMaps.Run(Calls(es + [e])) == SafeMaps.Run(Calls(es))
  {
    assert (es + [e])[..|es|] == es;
    var before := Calls(es);
    match e
    case Read(id) => RunAppend(before, OpSet(Number(Reads(es) + 1), id));
    case Reply(s) => RunAppend(before, OpDel(s));
  }

  lemma RunAppend<Id>(ops: seq<Op<Id>>, op: Op<Id>)
    ensures SafeMaps.Run(ops + [op]) == SafeMaps.Run(ops).Step(op)
  {
    assert (ops + [op])[..|ops|] == ops;
  }
}
