/** What the goroutines of the lifecycle can do: each can go on unless it has to wait for a
    named reason, and by their own moves they connect, send, hand shares over, read, stop
    and tear down. */
module Reachability {
  import opened Lifecycle
  import opened Wrappers

  ghost predicate Own(ms: seq<Move>, t: Tid) {
    forall m | m in ms :: m.tid == t
  }

  /** By moves of its own t gets to p, and the shared state to sh; nothing else changes. */
  ghost predicate Reaches(s: State, t: Tid, sh: Shared, p: Pc) {
    exists ms :: Own(ms, t) && RunFrom(s, ms) == s.To(t, sh, p)
  }

  lemma {:induction false} RunFromConcat(s: State, a: seq<Move>, b: seq<Move>)
    ensures RunFrom(s, a + b) == RunFrom(RunFrom(s, a), b)
  {
    if b == [] {
      assert a + b == a;
    } else {
      RunFromConcat(s, a, b[..|b| - 1]);
      assert (a + b)[..|a + b| - 1] == a + b[..|b| - 1];
    }
  }

  lemma OneMore(s: State, ms: seq<Move>, t: Tid, c: nat)
    ensures RunFrom(s, ms + [Move(t, c)]) == Exec(RunFrom(s, ms), t, c)
    ensures Own(ms, t) ==> Own(ms + [Move(t, c)], t)
  {
    assert (ms + [Move(t, c)])[..|ms|] == ms;
  }

  /** A step that starts nothing and hands nothing over. */
  predicate Goes(sh: Shared, t: Tid, p: Pc, c: nat, sh': Shared, p': Pc) {
    !p.Offer? && !(p.Dial? && c > 0) && Act(sh, t, p, c) == Next(sh', p')
  }

  lemma GoesExec(s: State, t: Tid, c: nat, sh: Shared, p: Pc)
    requires Goes(s.sh, t, s.Pc(t), c, sh, p)
    ensures Exec(s, t, c) == s.To(t, sh, p)
  {
  }

  /** t stands there, or gets there. */
  ghost predicate Stands(s: State, t: Tid, sh: Shared, p: Pc) {
    (s.sh == sh && s.Pc(t) == p) || Reaches(s, t, sh, p)
  }

  lemma Walk(s: State, t: Tid, sh: Shared, p: Pc, c: nat, sh': Shared, p': Pc)
    requires Stands(s, t, sh, p) && Goes(sh, t, p, c, sh', p')
    ensures Reaches(s, t, sh', p')
  {
    if Reaches(s, t, sh, p) {
      var ms :| Own(ms, t) && RunFrom(s, ms) == s.To(t, sh, p);
      WalkOn(s, t, ms, sh, p, c, sh', p');
    } else {
      GoesExec(s, t, c, sh', p');
      OneMore(s, [], t, c);
      Arrived(s, t, [] + [Move(t, c)], sh', p');
    }
  }

  lemma WalkOn(s: State, t: Tid, ms: seq<Move>, sh: Shared, p: Pc, c: nat, sh': Shared, p': Pc)
    requires Own(ms, t) && RunFrom(s, ms) == s.To(t, sh, p) && Goes(sh, t, p, c, sh', p')
    ensures Reaches(s, t, sh', p')
  {
    GoesExec(s.To(t, sh, p), t, c, sh', p');
    OneMore(s, ms, t, c);
    assert s.pcs[t := p][t := p'] == s.pcs[t := p'];
    Arrived(s, t, ms + [Move(t, c)], sh', p');
  }

  lemma Arrived(s: State, t: Tid, ms: seq<Move>, sh: Shared, p: Pc)
    requires Own(ms, t) && RunFrom(s, ms) == s.To(t, sh, p)
    ensures Reaches(s, t, sh, p)
  {
  }

  // The steps, one by one.

  lemma Starts(s: State, t: Tid, sh: Shared)
    requires Stands(s, t, sh, Ready)
    ensures Reaches(s, t, sh, Starting)
  {
    Walk(s, t, sh, Ready, 0, sh, Starting);
  }

  lemma WantsConnect(s: State, t: Tid, sh: Shared)
    requires Stands(s, t, sh, Starting)
    ensures Reaches(s, t, sh, WantMu(Connect))
  {
    Walk(s, t, sh, Starting, 0, sh, WantMu(Connect));
  }

  lemma TakesMu(s: State, t: Tid, sh: Shared, why: Purpose)
    requires Stands(s, t, sh, WantMu(why)) && sh.mu == None
    ensures Reaches(s, t, sh.(mu := Some(t)), HasMu(why))
  {
    Walk(s, t, sh, WantMu(why), 0, sh.(mu := Some(t)), HasMu(why));
  }

  lemma DropsMu(s: State, t: Tid, sh: Shared, after: After)
    requires Stands(s, t, sh, UnlockMu(after))
    ensures Reaches(s, t, sh.(mu := None), AfterPc(after))
  {
    Walk(s, t, sh, UnlockMu(after), 0, sh.(mu := None), AfterPc(after));
  }

  lemma FindsClosed(s: State, t: Tid, sh: Shared, why: Purpose)
    requires Stands(s, t, sh, HasMu(why)) && sh.isClosed
    ensures Reaches(s, t, sh, UnlockMu(Refused(why)))
  {
    Walk(s, t, sh, HasMu(why), 0, sh, UnlockMu(Refused(why)));
  }

  lemma EntersConnect(s: State, t: Tid, sh: Shared)
    requires Stands(s, t, sh, HasMu(Connect)) && !sh.isClosed
    ensures Reaches(s, t, sh, Dial)
  {
    Walk(s, t, sh, HasMu(Connect), 0, sh, Dial);
  }

  lemma DialFailed(s: State, t: Tid, sh: Shared)
    requires Stands(s, t, sh, Dial)
    ensures Reaches(s, t, sh, UnlockMu(AStarting))
  {
    Walk(s, t, sh, Dial, 0, sh, UnlockMu(AStarting));
  }

  lemma SendLocks(s: State, t: Tid, sh: Shared, msg: Sending)
    requires Stands(s, t, sh, SendRLock(msg)) && sh.writer == None
    ensures Reaches(s, t, sh.(readers := sh.readers + {t}), SendCheck(msg))
  {
    Walk(s, t, sh, SendRLock(msg), 0, sh.(readers := sh.readers + {t}), SendCheck(msg));
  }

  lemma SendChecks(s: State, t: Tid, sh: Shared, msg: Sending)
    requires Stands(s, t, sh, SendCheck(msg)) && !sh.connClosed
    ensures Reaches(s, t, sh, SendPut(msg))
  {
    Walk(s, t, sh, SendCheck(msg), 0, sh, SendPut(msg));
  }

  lemma SendPuts(s: State, t: Tid, sh: Shared, msg: Sending)
    requires Stands(s, t, sh, SendPut(msg)) && !sh.msgClosed
    ensures Reaches(s, t, sh, SendRUnlock(msg))
  {
    Walk(s, t, sh, SendPut(msg), 1, sh, SendRUnlock(msg));
  }

  lemma SendUnlocks(s: State, t: Tid, sh: Shared, msg: Sending)
    requires Stands(s, t, sh, SendRUnlock(msg))
    ensures Reaches(s, t, sh.(readers := sh.readers - {t}), UnlockMu(AServing))
  {
    Walk(s, t, sh, SendRUnlock(msg), 1, sh.(readers := sh.readers - {t}), UnlockMu(AServing));
  }

  lemma SendUnlocksForName(s: State, t: Tid, sh: Shared)
    requires Stands(s, t, sh, SendRUnlock(Login))
    ensures Reaches(s, t, sh.(readers := sh.readers - {t}), SendRLock(Name))
  {
    Walk(s, t, sh, SendRUnlock(Login), 0, sh.(readers := sh.readers - {t}), SendRLock(Name));
  }

  lemma WantsSubmit(s: State, t: Tid, sh: Shared)
    requires Stands(s, t, sh, Idle) && t.Submitter?
    ensures Reaches(s, t, sh, WantMu(Submit))
  {
    Walk(s, t, sh, Idle, 0, sh, WantMu(Submit));
  }

  lemma EntersSubmit(s: State, t: Tid, sh: Shared)
    requires Stands(s, t, sh, HasMu(Submit)) && !sh.isClosed
    ensures Reaches(s, t, sh, Offer)
  {
    Walk(s, t, sh, HasMu(Submit), 1, sh, Offer);
  }

  lemma GetsReply(s: State, t: Tid, sh: Shared)
    requires Stands(s, t, sh, AwaitReply)
    ensures Reaches(s, t, sh, UnlockMu(AIdle))
  {
    Walk(s, t, sh, AwaitReply, 1, sh, UnlockMu(AIdle));
  }

  lemma EntersHandle(s: State, t: Tid, sh: Shared)
    requires Stands(s, t, sh, HasMu(HandleSubmit)) && !sh.isClosed && sh.hasConn
    ensures Reaches(s, t, sh, SendRLock(ShareUp))
  {
    Walk(s, t, sh, HasMu(HandleSubmit), 1, sh, SendRLock(ShareUp));
  }

  lemma WantsRead(s: State, t: Tid, sh: Shared)
    requires Stands(s, t, sh, Looping) && t.Reader?
    ensures Reaches(s, t, sh, ReadRLock)
  {
    Walk(s, t, sh, Looping, 1, sh, ReadRLock);
  }

  lemma ReadLocks(s: State, t: Tid, sh: Shared)
    requires Stands(s, t, sh, ReadRLock) && sh.writer == None
    ensures Reaches(s, t, sh.(readers := sh.readers + {t}), ReadCheck)
  {
    Walk(s, t, sh, ReadRLock, 0, sh.(readers := sh.readers + {t}), ReadCheck);
  }

  lemma ReadChecks(s: State, t: Tid, sh: Shared)
    requires Stands(s, t, sh, ReadCheck) && !sh.connClosed
    ensures Reaches(s, t, sh, ReadPut)
  {
    Walk(s, t, sh, ReadCheck, 0, sh, ReadPut);
  }

  lemma ReadPuts(s: State, t: Tid, sh: Shared)
    requires Stands(s, t, sh, ReadPut) && !sh.notifyClosed
    ensures Reaches(s, t, sh, ReadRUnlock)
  {
    Walk(s, t, sh, ReadPut, 1, sh, ReadRUnlock);
  }

  lemma ReadUnlocks(s: State, t: Tid, sh: Shared)
    requires Stands(s, t, sh, ReadRUnlock)
    ensures Reaches(s, t, sh.(readers := sh.readers - {t}), Looping)
  {
    Walk(s, t, sh, ReadRUnlock, 0, sh.(readers := sh.readers - {t}), Looping);
  }

  lemma WantsStop(s: State, t: Tid, sh: Shared)
    requires Stands(s, t, sh, Looping)
    ensures Reaches(s, t, sh, StopLock(Exit))
  {
    Walk(s, t, sh, Looping, 0, sh, StopLock(Exit));
  }

  lemma StopLocks(s: State, t: Tid, sh: Shared, stop: Stopping)
    requires Stands(s, t, sh, StopLock(stop)) && sh.writer == None && sh.readers == {}
    ensures Reaches(s, t, sh.(writer := Some(t)), StopCheck(stop))
  {
    Walk(s, t, sh, StopLock(stop), 0, sh.(writer := Some(t)), StopCheck(stop));
  }

  lemma StopChecks(s: State, t: Tid, sh: Shared, stop: Stopping)
    requires Stands(s, t, sh, StopCheck(stop))
    ensures Reaches(s, t, sh, if sh.connClosed then StopUnlock(stop) else StopCloseMsg(stop))
  {
    Walk(s, t, sh, StopCheck(stop), 0, sh, if sh.connClosed then StopUnlock(stop) else StopCloseMsg(stop));
  }

  lemma StopClosesMsg(s: State, t: Tid, sh: Shared, stop: Stopping)
    requires Stands(s, t, sh, StopCloseMsg(stop)) && !sh.msgClosed
    ensures Reaches(s, t, sh.(msgClosed := true), StopSetFlag(stop))
  {
    Walk(s, t, sh, StopCloseMsg(stop), 0, sh.(msgClosed := true), StopSetFlag(stop));
  }

  lemma StopSetsFlag(s: State, t: Tid, sh: Shared, stop: Stopping)
    requires Stands(s, t, sh, StopSetFlag(stop))
    ensures Reaches(s, t, sh.(connClosed := true), StopUnlock(stop))
  {
    Walk(s, t, sh, StopSetFlag(stop), 0, sh.(connClosed := true), StopUnlock(stop));
  }

  lemma StopUnlocks(s: State, t: Tid, sh: Shared, stop: Stopping)
    requires Stands(s, t, sh, StopUnlock(stop))
    ensures Reaches(s, t, sh.(writer := None), AfterStop(stop))
  {
    Walk(s, t, sh, StopUnlock(stop), 0, sh.(writer := None), AfterStop(stop));
  }

  lemma WantsClose(s: State, t: Tid, sh: Shared)
    requires Stands(s, t, sh, Idle) && t.Remover?
    ensures Reaches(s, t, sh, WantMu(Close))
  {
    Walk(s, t, sh, Idle, 0, sh, WantMu(Close));
  }

  lemma WantsRemove(s: State, t: Tid, sh: Shared)
    requires Stands(s, t, sh, Idle) && t.Remover?
    ensures Reaches(s, t, sh, WantMu(Remove))
  {
    Walk(s, t, sh, Idle, 1, sh, WantMu(Remove));
  }

  lemma EntersTeardown(s: State, t: Tid, sh: Shared, why: Purpose)
    requires Stands(s, t, sh, HasMu(why)) && IsTeardown(why) && !sh.isClosed
    requires why.Shutdown? && sh.hasConn ==> why.cl == 0 || why.cl == -1
    ensures Reaches(s, t, sh, if sh.hasConn then StopLock(Teardown(Refused(why), why.Remove?)) else CloseDone(Refused(why), why.Remove?))
  {
    Walk(s, t, sh, HasMu(why), 0, sh,
         if sh.hasConn then StopLock(Teardown(Refused(why), why.Remove?)) else CloseDone(Refused(why), why.Remove?));
  }

  lemma ClosesDone(s: State, t: Tid, sh: Shared, after: After, early: bool)
    requires Stands(s, t, sh, CloseDone(after, early)) && !sh.doneClosed
    ensures Reaches(s, t, sh.(doneClosed := true, hasConn := sh.hasConn && !early), CloseNotify(after))
  {
    Walk(s, t, sh, CloseDone(after, early), 0, sh.(doneClosed := true, hasConn := sh.hasConn && !early), CloseNotify(after));
  }

  lemma ClosesNotify(s: State, t: Tid, sh: Shared, after: After)
    requires Stands(s, t, sh, CloseNotify(after)) && !sh.notifyClosed
    ensures Reaches(s, t, sh.(notifyClosed := true), CloseSubs(after))
  {
    Walk(s, t, sh, CloseNotify(after), 0, sh.(notifyClosed := true), CloseSubs(after));
  }

  lemma ClosesSubs(s: State, t: Tid, sh: Shared, after: After)
    requires Stands(s, t, sh, CloseSubs(after)) && !sh.subsClosed
    ensures Reaches(s, t, sh.(subsClosed := true), SetClosed(after))
  {
    Walk(s, t, sh, CloseSubs(after), 0, sh.(subsClosed := true), SetClosed(after));
  }

  lemma SetsClosed(s: State, t: Tid, sh: Shared, after: After)
    requires Stands(s, t, sh, SetClosed(after))
    ensures Reaches(s, t, sh.(hasConn := false, isClosed := true), UnlockMu(after))
  {
    Walk(s, t, sh, SetClosed(after), 0, sh.(hasConn := false, isClosed := true), UnlockMu(after));
  }

  lemma LearnsOfEnd(s: State, t: Tid, sh: Shared)
    requires Stands(s, t, sh, Serving) && sh.doneClosed
    ensures Reaches(s, t, sh, WantMu(Shutdown(0)))
  {
    Walk(s, t, sh, Serving, 2, sh, WantMu(Shutdown(0)));
  }
  // Who can move.

  /** A goroutine that is over, not started, or waits for a lock or for the run loop. */
  predicate Waits(s: State, t: Tid) {
    match s.Pc(t)
    case End => true
    case Dormant => true
    case Idle => !t.Submitter? && !t.Remover?
    case WantMu(_) => s.sh.mu != None
    case SendRLock(_) => s.sh.writer != None
    case ReadRLock => s.sh.writer != None
    case StopLock(_) => s.sh.writer != None || s.sh.readers != {}
    case Offer => s.Pc(Runner) != Serving
    case _ => false
  }

  /** What a goroutine waits for stays away, whatever its environment decides, */
  lemma WaitingStays(s: State, t: Tid, c: nat)
    requires Waits(s, t) && (s.Pc(t).Offer? ==> !s.sh.subsClosed)
    ensures Exec(s, t, c) == s || Exec(s, t, c) == s.At(t, s.Pc(t))
  {
  }

  /** and without it a goroutine can always go on, in connection, */
  lemma ConnectionMoves(s: State, t: Tid, c: nat)
    requires !Waits(s, t) && c == 1 && Inv(s)
    requires InStop(s.Pc(t)) || InSend(s.Pc(t)) || InRead(s.Pc(t))
    ensures Exec(s, t, c).Pc(t) != s.Pc(t)
  {
    assert ThreadOk(s.sh, t, s.Pc(t));
  }

  /** in teardown */
  lemma TeardownMoves(s: State, t: Tid, c: nat)
    requires InTeardown(s.Pc(t)) && Inv(s)
    ensures Exec(s, t, c).Pc(t) != s.Pc(t)
  {
    assert ThreadOk(s.sh, t, s.Pc(t));
  }

  /** and everywhere else. */
  lemma OtherMoves(s: State, t: Tid) returns (c: nat)
    requires !Waits(s, t) && Inv(s)
    requires !InStop(s.Pc(t)) && !InSend(s.Pc(t)) && !InRead(s.Pc(t)) && !InTeardown(s.Pc(t))
    ensures Exec(s, t, c).Pc(t) != s.Pc(t)
  {
    assert ThreadOk(s.sh, t, s.Pc(t));
    c := if s.Pc(t).Looping? then 0 else 1;
  }

  lemma MovesUnlessWaiting(s: State, t: Tid) returns (c: nat)
    requires Inv(s) && !Waits(s, t)
    ensures Exec(s, t, c).Pc(t) != s.Pc(t)
  {
    var p := s.Pc(t);
    if InTeardown(p) {
      c := 0;
      TeardownMoves(s, t, c);
    } else if InStop(p) || InSend(p) || InRead(p) {
      c := 1;
      ConnectionMoves(s, t, c);
    } else {
      c := OtherMoves(s, t);
    }
  }

  // The run loop connects, sends and gives up.

  /** The run loop of a proxy that is not closed gets as far as the dial, and a dial that
      comes off makes the connection and starts the reader and the writer. */
  lemma ReachesDial(s: State)
    requires s.Pc(Runner) == Starting && s.sh.mu == None && !s.sh.isClosed
    ensures Reaches(s, Runner, s.sh.(mu := Some(Runner)), Dial)
  {
    var sh := s.sh.(mu := Some(Runner));
    WantsConnect(s, Runner, s.sh);
    TakesMu(s, Runner, s.sh, Connect);
    EntersConnect(s, Runner, sh);
  }

  lemma DialSucceeds(s: State)
    requires s.Pc(Runner) == Dial
    ensures Exec(s, Runner, 1)
      == s.To(Runner, s.sh.(hasConn := true, created := true), SendRLock(Login)).At(Reader, Looping).At(Writer, Looping)
  {
  }

  lemma Connects(s: State) returns (ms: seq<Move>)
    requires s.Pc(Runner) == Starting && s.sh.mu == None && !s.sh.isClosed
    ensures Own(ms, Runner)
    ensures var sh := s.sh.(mu := Some(Runner), hasConn := true, created := true);
      RunFrom(s, ms) == s.To(Runner, sh, SendRLock(Login)).At(Reader, Looping).At(Writer, Looping)
  {
    ReachesDial(s);
    var sh := s.sh.(mu := Some(Runner));
    ms :| Own(ms, Runner) && RunFrom(s, ms) == s.To(Runner, sh, Dial);
    OneMore(s, ms, Runner, 1);
    DialSucceeds(s.To(Runner, sh, Dial));
    assert s.pcs[Runner := Dial][Runner := SendRLock(Login)] == s.pcs[Runner := SendRLock(Login)];
    ms := ms + [Move(Runner, 1)];
  }

  /** A failed dial brings the run loop back to try again, or to give up. */
  lemma DialFails(s: State)
    requires s.Pc(Runner) == Dial
    ensures Reaches(s, Runner, s.sh.(mu := None), Starting)
  {
    DialFailed(s, Runner, s.sh);
    DropsMu(s, Runner, s.sh, AStarting);
  }

  lemma GivesUp(s: State)
    requires s.Pc(Runner) == Starting
    ensures Exec(s, Runner, 1) == s.At(Runner, WantMu(Shutdown(2)))
  {
  }

  /** A message gets as far as the channel, */
  lemma ReachesPut(s: State, t: Tid, msg: Sending)
    requires s.Pc(t) == SendRLock(msg) && s.sh.writer == None && !s.sh.connClosed
    ensures Reaches(s, t, s.sh.(readers := s.sh.readers + {t}), SendPut(msg))
  {
    SendLocks(s, t, s.sh, msg);
    SendChecks(s, t, s.sh.(readers := s.sh.readers + {t}), msg);
  }

  /** and through it, and then the run loop serves, */
  lemma LeavesPut(s: State, t: Tid, msg: Sending)
    requires s.Pc(t) == SendPut(msg) && !s.sh.msgClosed
    ensures Reaches(s, t, s.sh.(readers := s.sh.readers - {t}, mu := None), Serving)
  {
    SendPuts(s, t, s.sh, msg);
    SendUnlocks(s, t, s.sh, msg);
    DropsMu(s, t, s.sh.(readers := s.sh.readers - {t}), AServing);
  }

  /** unless the name has still to follow the login. */
  lemma LoginThenName(s: State, t: Tid)
    requires s.Pc(t) == SendPut(Login) && !s.sh.msgClosed
    ensures Reaches(s, t, s.sh.(readers := s.sh.readers - {t}), SendRLock(Name))
  {
    SendPuts(s, t, s.sh, Login);
    SendUnlocksForName(s, t, s.sh);
  }

  /** What a serving run loop may turn to. */
  lemma ServingChoices(s: State)
    requires s.Pc(Runner) == Serving
    ensures Exec(s, Runner, 1) == s.At(Runner, WantMu(Broadcast))
    ensures Exec(s, Runner, 3) == s.At(Runner, WantMu(Shutdown(-1)))
    ensures s.sh.doneClosed ==> Exec(s, Runner, 2) == s.At(Runner, WantMu(Shutdown(0)))
    ensures s.sh.subsClosed ==> Exec(s, Runner, 0) == s.At(Runner, WantMu(HandleNil))
  {
  }

  // Shares.

  lemma ReachesOffer(s: State, t: Tid)
    requires s.Pc(t) == Idle && t.Submitter? && s.sh.mu == None && !s.sh.isClosed
    ensures Reaches(s, t, s.sh.(mu := Some(t)), Offer)
  {
    WantsSubmit(s, t, s.sh);
    TakesMu(s, t, s.sh, Submit);
    EntersSubmit(s, t, s.sh.(mu := Some(t)));
  }

  lemma OfferTaken(s: State, t: Tid)
    requires s.Pc(t) == Offer && s.Pc(Runner) == Serving && !s.sh.subsClosed
    ensures Exec(s, t, 0) == s.To(t, s.sh, AwaitReply).At(Runner, WantMu(HandleSubmit))
  {
  }

  /** A submitter hands its share to a serving run loop. */
  lemma HandsOver(s: State, t: Tid) returns (ms: seq<Move>)
    requires s.Pc(t) == Idle && t.Submitter? && s.Pc(Runner) == Serving && s.sh.mu == None
    requires !s.sh.isClosed && !s.sh.subsClosed
    ensures Own(ms, t)
    ensures RunFrom(s, ms) == s.To(t, s.sh.(mu := Some(t)), AwaitReply).At(Runner, WantMu(HandleSubmit))
  {
    ReachesOffer(s, t);
    var offering := s.To(t, s.sh.(mu := Some(t)), Offer);
    ms :| Own(ms, t) && RunFrom(s, ms) == offering;
    OneMore(s, ms, t, 0);
    assert offering.Pc(Runner) == s.Pc(Runner);
    OfferTaken(offering, t);
    assert s.pcs[t := Offer][t := AwaitReply] == s.pcs[t := AwaitReply];
    ms := ms + [Move(t, 0)];
  }

  lemma Answered(s: State, t: Tid)
    requires s.Pc(t) == AwaitReply
    ensures Reaches(s, t, s.sh.(mu := None), Idle)
  {
    GetsReply(s, t, s.sh);
    DropsMu(s, t, s.sh, AIdle);
  }

  /** The run loop takes up the share and sends it on. */
  lemma SendsShare(s: State)
    requires s.Pc(Runner) == WantMu(HandleSubmit) && s.sh.mu == None && !s.sh.isClosed && s.sh.hasConn
    ensures Reaches(s, Runner, s.sh.(mu := Some(Runner)), SendRLock(ShareUp))
  {
    TakesMu(s, Runner, s.sh, HandleSubmit);
    EntersHandle(s, Runner, s.sh.(mu := Some(Runner)));
  }

  // The reader, and the end of the reader and the writer.

  lemma ReaderPuts(s: State)
    requires s.Pc(Reader) == Looping && s.sh.writer == None && !s.sh.connClosed
    ensures Reaches(s, Reader, s.sh.(readers := s.sh.readers + {Reader}), ReadPut)
  {
    WantsRead(s, Reader, s.sh);
    ReadLocks(s, Reader, s.sh);
    ReadChecks(s, Reader, s.sh.(readers := s.sh.readers + {Reader}));
  }

  lemma ReaderGoesOn(s: State)
    requires s.Pc(Reader) == ReadPut && !s.sh.notifyClosed
    ensures Reaches(s, Reader, s.sh.(readers := s.sh.readers - {Reader}), Looping)
  {
    ReadPuts(s, Reader, s.sh);
    ReadUnlocks(s, Reader, s.sh);
  }

  function Stopped(sh: Shared): Shared {
    sh.(connClosed := true, msgClosed := true)
  }

  function AfterStop(stop: Stopping): Pc {
    if stop.Exit? then End else CloseDone(stop.after, stop.early)
  }

  /** Stop with the write lock: it closes the connection if nobody has. */
  lemma StopsLocked(s: State, t: Tid, sh: Shared, stop: Stopping)
    requires Stands(s, t, sh, StopCheck(stop)) && sh.msgClosed == sh.connClosed
    ensures Reaches(s, t, Stopped(sh), StopUnlock(stop))
  {
    StopChecks(s, t, sh, stop);
    if !sh.connClosed {
      StopClosesMsg(s, t, sh, stop);
      StopSetsFlag(s, t, sh.(msgClosed := true), stop);
    }
  }

  lemma Stops(s: State, t: Tid, sh: Shared, stop: Stopping)
    requires Stands(s, t, sh, StopLock(stop))
    requires sh.writer == None && sh.readers == {} && sh.msgClosed == sh.connClosed
    ensures Reaches(s, t, Stopped(sh), AfterStop(stop))
  {
    StopLocks(s, t, sh, stop);
    StopsLocked(s, t, sh.(writer := Some(t)), stop);
    StopUnlocks(s, t, Stopped(sh.(writer := Some(t))), stop);
  }

  /** The reader and the writer close the connection when they end. */
  lemma LoopEnds(s: State, t: Tid)
    requires Inv(s) && s.Pc(t) == Looping && s.sh.writer == None && s.sh.readers == {}
    ensures Reaches(s, t, Stopped(s.sh), End)
  {
    WantsStop(s, t, s.sh);
    Stops(s, t, s.sh, Exit);
  }

  // Teardown.

  function Closed(sh: Shared): Shared {
    sh.(doneClosed := true, notifyClosed := true, subsClosed := true, hasConn := false, isClosed := true, mu := None)
  }

  lemma ClosesAll(s: State, t: Tid, sh: Shared, after: After, early: bool)
    requires Stands(s, t, sh, CloseDone(after, early))
    requires !sh.doneClosed && !sh.notifyClosed && !sh.subsClosed
    ensures Reaches(s, t, Closed(sh), AfterPc(after))
  {
    var sh1 := sh.(doneClosed := true, hasConn := sh.hasConn && !early);
    ClosesDone(s, t, sh, after, early);
    ClosesNotify(s, t, sh1, after);
    ClosesRest(s, t, sh1.(notifyClosed := true), after);
  }

  lemma ClosesRest(s: State, t: Tid, sh: Shared, after: After)
    requires Stands(s, t, sh, CloseSubs(after)) && sh.doneClosed && sh.notifyClosed && !sh.subsClosed
    ensures Reaches(s, t, Closed(sh), AfterPc(after))
  {
    var sh1 := sh.(subsClosed := true);
    ClosesSubs(s, t, sh, after);
    SetsClosed(s, t, sh1, after);
    DropsMu(s, t, sh1.(hasConn := false, isClosed := true), after);
  }

  /** shutdown, Close and Remove, once they hold connMu of a proxy that is not closed, close
      the connection, if there is one, and the three channels. */
  lemma TearsDown(s: State, t: Tid, why: Purpose)
    requires Inv(s) && s.Pc(t) == HasMu(why) && IsTeardown(why) && !s.sh.isClosed
    requires s.sh.writer == None && s.sh.readers == {}
    ensures Reaches(s, t, Closed(if s.sh.hasConn then Stopped(s.sh) else s.sh), AfterPc(Refused(why)))
  {
    assert ThreadOk(s.sh, t, s.Pc(t));
    EntersTeardown(s, t, s.sh, why);
    if s.sh.hasConn {
      Stops(s, t, s.sh, Teardown(Refused(why), why.Remove?));
      ClosesAll(s, t, Stopped(s.sh), Refused(why), why.Remove?);
    } else {
      ClosesAll(s, t, s.sh, Refused(why), why.Remove?);
    }
  }

  lemma ClosedIsDone(s: State)
    requires Inv(s) && s.sh.mu == None && s.sh.isClosed
    ensures s.sh.doneClosed
  {
  }

  /** A run loop that serves a closed proxy comes to its end. */
  lemma RunLoopEnds(s: State)
    requires Inv(s) && s.Pc(Runner) == Serving && s.sh.mu == None && s.sh.isClosed
    ensures Reaches(s, Runner, s.sh, End)
  {
    var sh := s.sh.(mu := Some(Runner));
    ClosedIsDone(s);
    LearnsOfEnd(s, Runner, s.sh);
    TakesMu(s, Runner, s.sh, Shutdown(0));
    LeavesClosed(s, sh);
  }

  lemma LeavesClosed(s: State, sh: Shared)
    requires Reaches(s, Runner, sh, HasMu(Shutdown(0))) && sh.isClosed
    ensures Reaches(s, Runner, sh.(mu := None), End)
  {
    FindsClosed(s, Runner, sh, Shutdown(0));
    DropsMu(s, Runner, sh, AEnd);
  }

  // Schedules from the start.

  const SERVED: Shared := Shared(None, false, true, true, {}, None, false, false, false, false, false)

  ghost predicate Served(s: State) {
    && s.sh == SERVED && s.Pc(Runner) == Serving && s.Pc(Reader) == Looping && s.Pc(Writer) == Looping
    && s.Pc(Submitter(0)) == Idle && s.Pc(Remover(0)) == Idle
  }

  /** A schedule that goes on with moves of t. */
  lemma Extended(ms: seq<Move>, t: Tid, sh: Shared, p: Pc) returns (all: seq<Move>)
    requires Reaches(Run(ms), t, sh, p)
    ensures Run(all) == Run(ms).To(t, sh, p)
  {
    var more :| Own(more, t) && RunFrom(Run(ms), more) == Run(ms).To(t, sh, p);
    RunFromConcat(INITIAL, ms, more);
    all := ms + more;
  }

  lemma Started() returns (ms: seq<Move>)
    ensures Run(ms) == INITIAL.To(Runner, INITIAL.sh, Starting)
  {
    Starts(INITIAL, Runner, INITIAL.sh);
    ms :| Own(ms, Runner) && RunFrom(INITIAL, ms) == INITIAL.To(Runner, INITIAL.sh, Starting);
  }

  lemma Connected() returns (ms: seq<Move>)
    ensures Run(ms) == State(SERVED.(mu := Some(Runner)), LOOPS[Runner := SendRLock(Login)], false)
  {
    var start := Started();
    var s := INITIAL.To(Runner, INITIAL.sh, Starting);
    assert s.Pc(Runner) == Starting;
    var more := Connects(s);
    RunFromConcat(INITIAL, start, more);
    ms := start + more;
  }

  const LOOPS: map<Tid, Pc> := map[Reader := Looping, Writer := Looping]

  lemma LoginIsReached() returns (ms: seq<Move>)
    ensures Run(ms) == State(SERVED.(mu := Some(Runner), readers := {Runner}), LOOPS[Runner := SendPut(Login)], false)
  {
    ms := Connected();
    ReachesPut(Run(ms), Runner, Login);
    ms := Extended(ms, Runner, SERVED.(mu := Some(Runner), readers := {Runner}), SendPut(Login));
  }

  lemma ServingState() returns (ms: seq<Move>)
    ensures Run(ms) == State(SERVED, LOOPS[Runner := Serving], false)
  {
    ms := LoginIsReached();
    LeavesPut(Run(ms), Runner, Login);
    ms := Extended(ms, Runner, SERVED, Serving);
  }

  lemma ServingIsReached() returns (ms: seq<Move>)
    ensures Served(Run(ms))
  {
    ms := ServingState();
  }

  lemma ReaderPutIsReached() returns (ms: seq<Move>)
    ensures Run(ms).Pc(Reader) == ReadPut && Run(ms).sh == SERVED.(readers := {Reader})
  {
    ms := ServingIsReached();
    ReaderPuts(Run(ms));
    ms := Extended(ms, Reader, SERVED.(readers := {Reader}), ReadPut);
  }

  lemma HandOverIsReached() returns (ms: seq<Move>)
    ensures Run(ms).Pc(Submitter(0)) == AwaitReply && Run(ms).Pc(Runner) == WantMu(HandleSubmit)
    ensures Run(ms).sh == SERVED.(mu := Some(Submitter(0)))
  {
    ms := ServingIsReached();
    var more := HandsOver(Run(ms), Submitter(0));
    RunFromConcat(INITIAL, ms, more);
    ms := ms + more;
  }

  lemma SharePutIsReached() returns (ms: seq<Move>)
    ensures Run(ms).Pc(Runner) == SendPut(ShareUp) && Run(ms).sh == SERVED.(mu := Some(Runner), readers := {Runner})
  {
    ms := HandOverIsReached();
    Answered(Run(ms), Submitter(0));
    ms := Extended(ms, Submitter(0), SERVED, Idle);
    SendsShare(Run(ms));
    ms := Extended(ms, Runner, SERVED.(mu := Some(Runner)), SendRLock(ShareUp));
    ReachesPut(Run(ms), Runner, ShareUp);
    ms := Extended(ms, Runner, SERVED.(mu := Some(Runner), readers := {Runner}), SendPut(ShareUp));
  }

  lemma CloseBegins(ms: seq<Move>) returns (all: seq<Move>)
    requires Served(Run(ms))
    ensures Run(all) == Run(ms).To(Remover(0), SERVED.(mu := Some(Remover(0))), HasMu(Close))
  {
    WantsClose(Run(ms), Remover(0), SERVED);
    TakesMu(Run(ms), Remover(0), SERVED, Close);
    all := Extended(ms, Remover(0), SERVED.(mu := Some(Remover(0))), HasMu(Close));
  }

  lemma CloseEnds(ms: seq<Move>) returns (all: seq<Move>)
    requires Run(ms).sh == SERVED.(mu := Some(Remover(0))) && Run(ms).Pc(Remover(0)) == HasMu(Close)
    ensures Run(all) == Run(ms).To(Remover(0), Closed(Stopped(SERVED)), Idle)
  {
    NoFault(ms);
    TearsDown(Run(ms), Remover(0), Close);
    all := Extended(ms, Remover(0), Closed(Stopped(SERVED)), Idle);
  }

  /** A worker leaves: Close runs to its end and everything is closed. */
  lemma CloseIsReached() returns (ms: seq<Move>)
    ensures Run(ms).sh == Closed(Stopped(SERVED)) && Run(ms).Pc(Remover(0)) == Idle
    ensures Run(ms).Pc(Runner) == Serving && Run(ms).Pc(Reader) == Run(ms).Pc(Writer) == Looping
  {
    ms := ServingIsReached();
    ms := CloseBegins(ms);
    ms := CloseEnds(ms);
  }

  /** Then the run loop, the reader and the writer end as well. */
  lemma TheEndIsReached() returns (ms: seq<Move>)
    ensures Run(ms).sh == Closed(Stopped(SERVED))
    ensures Run(ms).Pc(Runner) == Run(ms).Pc(Reader) == Run(ms).Pc(Writer) == End
  {
    ms := CloseIsReached();
    var sh := Closed(Stopped(SERVED));
    NoFault(ms);
    RunLoopEnds(Run(ms));
    ms := Extended(ms, Runner, sh, End);
    ms := ThenEnds(ms, Reader, sh);
    ms := ThenEnds(ms, Writer, sh);
  }

  lemma ThenEnds(ms: seq<Move>, t: Tid, sh: Shared) returns (all: seq<Move>)
    requires Run(ms).Pc(t) == Looping && Run(ms).sh == sh == Stopped(sh) && sh.writer == None && sh.readers == {}
    ensures Run(all) == Run(ms).To(t, sh, End)
  {
    NoFault(ms);
    LoopEnds(Run(ms), t);
    all := Extended(ms, t, sh, End);
  }
}
