/** Channels and locks of one proxy and its pool connection, under every interleaving of
    the reader, the writer, the run loop, any number of Submit calls and any number of
    removals (server/proxy/proxy.go, server/xdag/connect.go).

    A step is one lock operation, one test, one channel operation or one close. A fault
    is what makes Go panic: a send on a closed channel, a second close, a nil share. */
module Lifecycle {
  import opened Wrappers

  datatype Tid = Runner | Reader | Writer | Submitter(n: nat) | Remover(n: nat)

  datatype Shared = Shared(
    mu: Option<Tid>,       // who holds Proxy.connMu
    isClosed: bool,        // Proxy.isClosed
    hasConn: bool,         // Proxy.Conn is not nil
    created: bool,         // a Connection exists; its goroutines may outlive Proxy.Conn
    readers: set<Tid>,     // who holds the Connection's RWMutex for reading
    writer: Option<Tid>,   // and who for writing
    connClosed: bool,      // Connection.isClosed
    msgClosed: bool,       // msgBuffChan is closed
    doneClosed: bool, notifyClosed: bool, subsClosed: bool)

  /** Why a goroutine wants connMu. */
  datatype Purpose = Connect | Submit | HandleSubmit | HandleNil | Broadcast
    | Shutdown(cl: int) | Close | Remove

  /** Where a goroutine goes when it has let connMu go. */
  datatype After = AStarting | AServing | AIdle | AEnd

  /** What a SendBuffMsg belongs to, and what a Connection.Close or Stop belongs to. */
  datatype Sending = Login | Name | ShareUp
  datatype Stopping = Exit | Teardown(after: After, early: bool)

  datatype Pc =
    | Ready | Starting | Serving | Idle | Dormant | Looping | End
    | WantMu(why: Purpose) | HasMu(why: Purpose) | Dial | Offer | AwaitReply | UnlockMu(next: After)
    | SendRLock(msg: Sending) | SendCheck(msg: Sending) | SendPut(msg: Sending) | SendRUnlock(msg: Sending)
    | ReadRLock | ReadCheck | ReadPut | ReadRUnlock
    | StopLock(stop: Stopping) | StopCheck(stop: Stopping) | StopCloseMsg(stop: Stopping)
    | StopSetFlag(stop: Stopping) | StopUnlock(stop: Stopping)
    | CloseDone(after: After, early: bool) | CloseNotify(after: After) | CloseSubs(after: After) | SetClosed(after: After)

  datatype State = State(sh: Shared, pcs: map<Tid, Pc>, fault: bool)
  {
    function Pc(t: Tid): Pc {
      if t in pcs then pcs[t]
      else match t
        case Runner => Ready
        case Reader => Dormant
        case Writer => Dormant
        case _ => Idle
    }

    function To(t: Tid, sh': Shared, p: Pc): State {
      State(sh', pcs[t := p], fault)
    }

    function At(t: Tid, p: Pc): State {
      To(t, sh, p)
    }
  }

  const INITIAL: State := State(Shared(None, false, false, false, {}, None, false, false, false, false, false), map[], false)

  function AfterPc(a: After): Pc {
    match a
    case AStarting => Starting
    case AServing => Serving
    case AIdle => Idle
    case AEnd => End
  }

  /** Where a goroutine goes when it finds the proxy closed. */
  function Refused(why: Purpose): After {
    match why
    case Connect => AStarting
    case Submit => AIdle
    case HandleSubmit => AServing
    case HandleNil => AServing
    case Broadcast => AServing
    case Shutdown(_) => AEnd
    case Close => AIdle
    case Remove => AIdle
  }

  /** What one goroutine does by itself. */
  datatype Effect = Next(sh: Shared, pc: Pc) | Fault

  /** The step of a goroutine at p; c decides whatever its environment decides. A
      goroutine that has to wait stays where it is. */
  function Act(sh: Shared, t: Tid, p: Pc, c: nat): Effect {
    if InStop(p) then ActStop(sh, t, p)
    else if InTeardown(p) then ActTeardown(sh, p)
    else if InSend(p) then ActSend(sh, t, p, c)
    else if InRead(p) then ActRead(sh, t, p, c)
    else match p
      case Ready => Next(sh, Starting)
      case Starting => Next(sh, WantMu(if c == 0 then Connect else Shutdown(2)))
      case Serving => ActServing(sh, c)
      case Idle => Next(sh,
        match t
        case Submitter(_) => WantMu(Submit)
        case Remover(_) => WantMu(if c == 0 then Close else Remove)
        case _ => Idle)
      case Looping => Next(sh, if c == 0 then StopLock(Exit) else if t.Reader? then ReadRLock else Looping)
      case WantMu(why) => if sh.mu == None then Next(sh.(mu := Some(t)), HasMu(why)) else Next(sh, p)
      case HasMu(why) => ActEnter(sh, c, why)
      case Dial => if c == 0 then Next(sh, UnlockMu(AStarting)) else Next(sh.(hasConn := true, created := true), SendRLock(Login))
      case Offer => if sh.subsClosed then Fault else Next(sh, AwaitReply)
      case AwaitReply => Next(sh, if c == 0 then AwaitReply else UnlockMu(AIdle))
      case UnlockMu(next) => Next(sh.(mu := None), AfterPc(next))
      case _ => Next(sh, p)
  }

  /** The select of the run loop; done is never sent on, only closed. */
  function ActServing(sh: Shared, c: nat): Effect {
    if c == 0 && sh.subsClosed then Next(sh, WantMu(HandleNil))
    else if c == 1 then Next(sh, WantMu(Broadcast))
    else if c == 2 && sh.doneClosed then Next(sh, WantMu(Shutdown(0)))
    else if c == 3 then Next(sh, WantMu(Shutdown(-1)))
    else Next(sh, Serving)
  }

  /** connMu is held: the test of isClosed and what follows it. */
  function ActEnter(sh: Shared, c: nat, why: Purpose): Effect {
    if sh.isClosed then Next(sh, UnlockMu(Refused(why)))
    else match why
      case Connect => Next(sh, Dial)
      case Submit => Next(sh, if c == 0 then UnlockMu(AIdle) else Offer)
      case HandleSubmit => Next(sh, if sh.hasConn && c > 0 then SendRLock(ShareUp) else UnlockMu(AServing))
      case HandleNil => Fault
      case Broadcast => Next(sh, UnlockMu(AServing))
      case Shutdown(cl) => Next(sh, if sh.hasConn && (cl == 0 || cl == -1) then StopLock(Teardown(AEnd, false)) else CloseDone(AEnd, false))
      case Close => Next(sh, if sh.hasConn then StopLock(Teardown(AIdle, false)) else CloseDone(AIdle, false))
      case Remove => Next(sh, if sh.hasConn then StopLock(Teardown(AIdle, true)) else CloseDone(AIdle, true))
  }

  /** SendBuffMsg. */
  function ActSend(sh: Shared, t: Tid, p: Pc, c: nat): Effect
    requires InSend(p)
  {
    match p
    case SendRLock(m) => if sh.writer == None then Next(sh.(readers := sh.readers + {t}), SendCheck(m)) else Next(sh, p)
    case SendCheck(m) => Next(sh, if sh.connClosed then SendRUnlock(m) else SendPut(m))
    case SendPut(m) => if sh.msgClosed then Fault else Next(sh, if c == 0 then p else SendRUnlock(m))
    case SendRUnlock(m) =>
      Next(sh.(readers := sh.readers - {t}), if m == Login && c == 0 then SendRLock(Name) else UnlockMu(AServing))
  }

  /** The reader with a message from the pool. */
  function ActRead(sh: Shared, t: Tid, p: Pc, c: nat): Effect
    requires InRead(p)
  {
    match p
    case ReadRLock => if sh.writer == None then Next(sh.(readers := sh.readers + {t}), ReadCheck) else Next(sh, p)
    case ReadCheck => Next(sh, if sh.connClosed then ReadRUnlock else ReadPut)
    case ReadPut => if sh.notifyClosed then Fault else Next(sh, if c == 0 then p else ReadRUnlock)
    case ReadRUnlock => Next(sh.(readers := sh.readers - {t}), Looping)
  }

  /** Connection.Stop and Connection.Close. */
  function ActStop(sh: Shared, t: Tid, p: Pc): Effect
    requires InStop(p)
  {
    match p
    case StopLock(k) =>
      if sh.writer == None && sh.readers == {} then Next(sh.(writer := Some(t)), StopCheck(k)) else Next(sh, p)
    case StopCheck(k) => Next(sh, if sh.connClosed then StopUnlock(k) else StopCloseMsg(k))
    case StopCloseMsg(k) => if sh.msgClosed then Fault else Next(sh.(msgClosed := true), StopSetFlag(k))
    case StopSetFlag(k) => Next(sh.(connClosed := true), StopUnlock(k))
    case StopUnlock(k) => Next(sh.(writer := None), if k.Exit? then End else CloseDone(k.after, k.early))
  }

  /** The end of shutdown, Close and Remove; Remove forgets the connection first. */
  function ActTeardown(sh: Shared, p: Pc): Effect
    requires InTeardown(p)
  {
    match p
    case CloseDone(a, early) =>
      if sh.doneClosed then Fault else Next(sh.(doneClosed := true, hasConn := sh.hasConn && !early), CloseNotify(a))
    case CloseNotify(a) => if sh.notifyClosed then Fault else Next(sh.(notifyClosed := true), CloseSubs(a))
    case CloseSubs(a) => if sh.subsClosed then Fault else Next(sh.(subsClosed := true), SetClosed(a))
    case SetClosed(a) => Next(sh.(hasConn := false, isClosed := true), UnlockMu(a))
  }

  /** The step of goroutine t. A successful dial starts the reader and the writer; an
      unbuffered send waits for the run loop to receive. */
  function Exec(s: State, t: Tid, c: nat): State {
    var p := s.Pc(t);
    if p.Offer? && !s.sh.subsClosed && s.Pc(Runner) != Serving then s
    else match Act(s.sh, t, p, c)
      case Fault => s.(fault := true)
      case Next(sh', p') =>
        var s' := s.To(t, sh', p');
        if p.Offer? then s'.At(Runner, WantMu(HandleSubmit))
        else if p.Dial? && c > 0 then s'.At(Reader, Looping).At(Writer, Looping)
        else s'
  }

  datatype Move = Move(tid: Tid, choice: nat)

  /** The state after any schedule. */
  function RunFrom(s: State, moves: seq<Move>): State {
    if moves == [] then s
    else Exec(RunFrom(s, moves[..|moves| - 1]), moves[|moves| - 1].tid, moves[|moves| - 1].choice)
  }

  function Run(moves: seq<Move>): State {
    RunFrom(INITIAL, moves)
  }

  // What every state satisfies.

  predicate InTeardown(p: Pc) {
    p.CloseDone? || p.CloseNotify? || p.CloseSubs? || p.SetClosed?
  }

  predicate InStop(p: Pc) {
    p.StopLock? || p.StopCheck? || p.StopCloseMsg? || p.StopSetFlag? || p.StopUnlock?
  }

  predicate InSend(p: Pc) {
    p.SendRLock? || p.SendCheck? || p.SendPut? || p.SendRUnlock?
  }

  predicate InRead(p: Pc) {
    p.ReadRLock? || p.ReadCheck? || p.ReadPut? || p.ReadRUnlock?
  }

  predicate HoldsMu(p: Pc) {
    || p.HasMu? || p.Dial? || p.Offer? || p.AwaitReply? || p.UnlockMu?
    || InSend(p) || InTeardown(p) || (InStop(p) && p.stop.Teardown?)
  }

  predicate HoldsRead(p: Pc) {
    p.SendCheck? || p.SendPut? || p.SendRUnlock? || p.ReadCheck? || p.ReadPut? || p.ReadRUnlock?
  }

  predicate HoldsWrite(p: Pc) {
    p.StopCheck? || p.StopCloseMsg? || p.StopSetFlag? || p.StopUnlock?
  }

  /** Before the one successful connect of the run loop. */
  predicate IsEarly(p: Pc) {
    || p.Ready? || p.Starting? || p.Dial?
    || ((p.WantMu? || p.HasMu?) && (p.why == Connect || p.why == Shutdown(2)))
    || (p.UnlockMu? && p.next == AStarting)
  }

  /** Holding connMu and past the test of isClosed. */
  predicate PassedTest(p: Pc) {
    HoldsMu(p) && !p.HasMu? && !p.UnlockMu?
  }

  /** The three channels and the flag agree, and a live proxy knows its connection. */
  ghost predicate Settled(sh: Shared) {
    && sh.doneClosed == sh.notifyClosed == sh.subsClosed == sh.isClosed
    && (sh.created && !sh.isClosed ==> sh.hasConn)
  }

  /** How far a teardown has come. */
  ghost predicate Staged(sh: Shared, p: Pc)
    requires InTeardown(p)
  {
    && !sh.isClosed
    && sh.doneClosed == !p.CloseDone?
    && sh.notifyClosed == (p.CloseSubs? || p.SetClosed?)
    && sh.subsClosed == p.SetClosed?
    && (sh.created ==> sh.connClosed)
  }

  ghost predicate ThreadOk(sh: Shared, t: Tid, p: Pc) {
    && (HoldsMu(p) <==> sh.mu == Some(t))
    && (HoldsRead(p) <==> t in sh.readers)
    && (HoldsWrite(p) <==> sh.writer == Some(t))
    && (IsEarly(p) ==> t == Runner && !sh.created)
    && (PassedTest(p) ==> !sh.isClosed)
    && (HoldsMu(p) ==> if InTeardown(p) then Staged(sh, p) else Settled(sh))
    && (p.Looping? || InRead(p) || InStop(p) || InSend(p) ==> sh.created)
    && (InTeardown(p) ==> p.after != AStarting)
    && (InStop(p) && p.stop.Teardown? ==> p.stop.after != AStarting)
    && (p.ReadPut? || p.SendPut? ==> !sh.connClosed && !sh.msgClosed)
    && (p.StopCheck? ==> sh.msgClosed == sh.connClosed)
    && (p.StopCloseMsg? ==> !sh.connClosed && !sh.msgClosed)
    && (p.StopSetFlag? ==> !sh.connClosed && sh.msgClosed)
    && (p.StopUnlock? ==> sh.connClosed && sh.msgClosed)
    && ((p.WantMu? || p.HasMu?) && p.why.HandleNil? ==> sh.subsClosed)
    && ((p.WantMu? || p.HasMu?) && p.why.Shutdown? ==> p.why.cl in {0, 2, -1})
  }

  ghost predicate SharedOk(sh: Shared) {
    && (sh.mu == None ==> Settled(sh))
    && (sh.writer.Some? ==> sh.readers == {})
    && (sh.writer == None ==> sh.msgClosed == sh.connClosed)
    && (sh.hasConn ==> sh.created)
    && (!sh.created ==> !sh.connClosed && !sh.msgClosed && sh.readers == {} && sh.writer == None)
    // The key: notify is closed only when no connection can send on it any more.
    && (sh.notifyClosed && sh.created ==> sh.connClosed)
  }

  ghost predicate Inv(s: State) {
    && !s.fault
    && SharedOk(s.sh)
    && forall t: Tid :: ThreadOk(s.sh, t, s.Pc(t))
  }

  ghost predicate SameProxy(sh: Shared, sh': Shared) {
    && sh'.isClosed == sh.isClosed && sh'.hasConn == sh.hasConn && sh'.created == sh.created
    && sh'.doneClosed == sh.doneClosed && sh'.notifyClosed == sh.notifyClosed && sh'.subsClosed == sh.subsClosed
  }

  /** What a step of t may do to what the others rely on. */
  ghost predicate Guarantee(sh: Shared, sh': Shared, t: Tid) {
    && (sh'.mu == sh.mu || (sh.mu == None && sh'.mu == Some(t)) || (sh.mu == Some(t) && sh'.mu == None))
    && sh'.readers - {t} == sh.readers - {t}
    && (sh'.writer == sh.writer || (sh.writer == None && sh'.writer == Some(t)) || (sh.writer == Some(t) && sh'.writer == None))
    && (sh.mu != Some(t) ==> SameProxy(sh, sh'))
    && (sh.writer != Some(t) ==> sh'.connClosed == sh.connClosed && sh'.msgClosed == sh.msgClosed)
    && (sh.created ==> sh'.created) && (sh'.created != sh.created ==> t == Runner)
    && (sh.connClosed ==> sh'.connClosed) && (sh.subsClosed ==> sh'.subsClosed)
  }

  lemma OthersKeep(sh: Shared, sh': Shared, t: Tid, u: Tid, p: Pc)
    requires SharedOk(sh) && Guarantee(sh, sh', t) && u != t && ThreadOk(sh, u, p)
    ensures ThreadOk(sh', u, p)
  {
    assert u in sh.readers <==> u in sh.readers - {t};
    assert u in sh'.readers <==> u in sh'.readers - {t};
  }

  /** A step of one goroutine keeps the invariant if its own part of it is kept. */
  lemma StepKeeps(s: State, t: Tid, sh': Shared, p: Pc)
    requires Inv(s) && Guarantee(s.sh, sh', t) && SharedOk(sh') && ThreadOk(sh', t, p)
    ensures Inv(s.To(t, sh', p))
  {
    forall u: Tid {
      ThreadKept(s, t, sh', p, u);
    }
  }

  lemma ThreadKept(s: State, t: Tid, sh': Shared, p: Pc, u: Tid)
    requires Inv(s) && Guarantee(s.sh, sh', t) && ThreadOk(sh', t, p)
    ensures ThreadOk(sh', u, s.To(t, sh', p).Pc(u))
  {
    if u != t {
      assert s.To(t, sh', p).Pc(u) == s.Pc(u);
      OthersKeep(s.sh, sh', t, u, s.Pc(u));
    }
  }

  lemma InitialInv()
    ensures Inv(INITIAL)
  {
  }

  /** A step is sound: no fault, the others can rely on it, its own part is kept. */
  ghost predicate Sound(sh: Shared, t: Tid, e: Effect) {
    e.Next? && Guarantee(sh, e.sh, t) && SharedOk(e.sh) && ThreadOk(e.sh, t, e.pc)
  }

  lemma StopLockSound(sh: Shared, t: Tid, p: Pc)
    requires SharedOk(sh) && ThreadOk(sh, t, p) && p.StopLock?
    ensures Sound(sh, t, ActStop(sh, t, p))
  {
    if sh.writer == None && sh.readers == {} {
      StopLockTaken(sh, t, p.stop);
    }
  }

  lemma StopLockTaken(sh: Shared, t: Tid, stop: Stopping)
    requires SharedOk(sh) && ThreadOk(sh, t, StopLock(stop)) && sh.writer == None && sh.readers == {}
    ensures Sound(sh, t, Next(sh.(writer := Some(t)), StopCheck(stop)))
  {
  }

  lemma StopCheckSound(sh: Shared, t: Tid, p: Pc)
    requires SharedOk(sh) && ThreadOk(sh, t, p) && p.StopCheck?
    ensures Sound(sh, t, ActStop(sh, t, p))
  {
  }

  lemma StopExitSound(sh: Shared, t: Tid, p: Pc)
    requires SharedOk(sh) && ThreadOk(sh, t, p) && InStop(p) && !p.StopLock? && !p.StopCheck?
    ensures Sound(sh, t, ActStop(sh, t, p))
  {
  }

  lemma TeardownSound(sh: Shared, t: Tid, p: Pc)
    requires SharedOk(sh) && ThreadOk(sh, t, p) && InTeardown(p)
    ensures Sound(sh, t, ActTeardown(sh, p))
  {
  }

  lemma SendSound(sh: Shared, t: Tid, p: Pc, c: nat)
    requires SharedOk(sh) && ThreadOk(sh, t, p) && InSend(p)
    ensures Sound(sh, t, ActSend(sh, t, p, c))
  {
  }

  lemma ReadLockSound(sh: Shared, t: Tid, p: Pc, c: nat)
    requires SharedOk(sh) && ThreadOk(sh, t, p) && p.ReadRLock?
    ensures Sound(sh, t, ActRead(sh, t, p, c))
  {
  }

  lemma ReadUnlockSound(sh: Shared, t: Tid, p: Pc, c: nat)
    requires SharedOk(sh) && ThreadOk(sh, t, p) && p.ReadRUnlock?
    ensures Sound(sh, t, ActRead(sh, t, p, c))
  {
  }

  lemma ReadSound(sh: Shared, t: Tid, p: Pc, c: nat)
    requires SharedOk(sh) && ThreadOk(sh, t, p) && (p.ReadCheck? || p.ReadPut?)
    ensures Sound(sh, t, ActRead(sh, t, p, c))
  {
  }

  lemma ServingSound(sh: Shared, t: Tid, c: nat)
    requires SharedOk(sh) && ThreadOk(sh, t, Serving)
    ensures Sound(sh, t, ActServing(sh, c))
  {
  }

  predicate IsTeardown(why: Purpose) {
    why.Shutdown? || why.Close? || why.Remove?
  }

  lemma EnterTeardownSound(sh: Shared, t: Tid, c: nat, why: Purpose)
    requires SharedOk(sh) && ThreadOk(sh, t, HasMu(why)) && IsTeardown(why)
    ensures Sound(sh, t, ActEnter(sh, c, why))
  {
  }

  lemma EnterSound(sh: Shared, t: Tid, c: nat, why: Purpose)
    requires SharedOk(sh) && ThreadOk(sh, t, HasMu(why)) && !IsTeardown(why) && !why.HandleSubmit?
    ensures Sound(sh, t, ActEnter(sh, c, why))
  {
  }

  lemma EnterHandleSound(sh: Shared, t: Tid, c: nat)
    requires SharedOk(sh) && ThreadOk(sh, t, HasMu(HandleSubmit))
    ensures Sound(sh, t, ActEnter(sh, c, HandleSubmit))
  {
  }

  predicate IsOther(p: Pc) {
    !InStop(p) && !InTeardown(p) && !InSend(p) && !InRead(p) && !p.Serving? && !p.HasMu?
  }

  lemma UnlockedSound(sh: Shared, t: Tid, p: Pc, c: nat)
    requires SharedOk(sh) && ThreadOk(sh, t, p) && IsOther(p) && !HoldsMu(p)
    ensures Sound(sh, t, Act(sh, t, p, c))
  {
  }

  lemma LockedSound(sh: Shared, t: Tid, p: Pc, c: nat)
    requires SharedOk(sh) && ThreadOk(sh, t, p) && IsOther(p) && HoldsMu(p)
    ensures Sound(sh, t, Act(sh, t, p, c))
  {
  }

  lemma ActSound(sh: Shared, t: Tid, p: Pc, c: nat)
    requires SharedOk(sh) && ThreadOk(sh, t, p)
    ensures Sound(sh, t, Act(sh, t, p, c))
  {
    if p.StopLock? {
      StopLockSound(sh, t, p);
    } else if p.StopCheck? {
      StopCheckSound(sh, t, p);
    } else if InStop(p) {
      StopExitSound(sh, t, p);
    } else if InTeardown(p) {
      TeardownSound(sh, t, p);
    } else if InSend(p) {
      SendSound(sh, t, p, c);
    } else if p.ReadRLock? {
      ReadLockSound(sh, t, p, c);
    } else if p.ReadRUnlock? {
      ReadUnlockSound(sh, t, p, c);
    } else if InRead(p) {
      ReadSound(sh, t, p, c);
    } else if p.Serving? {
      ServingSound(sh, t, c);
    } else if p.HasMu? && IsTeardown(p.why) {
      EnterTeardownSound(sh, t, c, p.why);
    } else if p.HasMu? && p.why.HandleSubmit? {
      EnterHandleSound(sh, t, c);
    } else if p.HasMu? {
      EnterSound(sh, t, c, p.why);
    } else if HoldsMu(p) {
      LockedSound(sh, t, p, c);
    } else {
      UnlockedSound(sh, t, p, c);
    }
  }

  /** A share is handed over: the run loop goes to handle it. */
  lemma OfferKeeps(s: State)
    requires Inv(s) && s.Pc(Runner) == Serving
    ensures Inv(s.At(Runner, WantMu(HandleSubmit)))
  {
    assert ThreadOk(s.sh, Runner, Serving);
    StepKeeps(s, Runner, s.sh, WantMu(HandleSubmit));
  }

  /** A connection is made: its goroutines start. */
  lemma StartKeeps(s: State)
    requires Inv(s) && s.sh.created && s.sh.readers == {} && s.sh.writer == None && s.sh.mu == Some(Runner)
    ensures Inv(s.At(Reader, Looping).At(Writer, Looping))
  {
    StepKeeps(s, Reader, s.sh, Looping);
    StepKeeps(s.At(Reader, Looping), Writer, s.sh, Looping);
  }

  lemma ExecKeeps(s: State, t: Tid, c: nat)
    requires Inv(s)
    ensures Inv(Exec(s, t, c))
  {
    var p := s.Pc(t);
    assert ThreadOk(s.sh, t, p);
    ActSound(s.sh, t, p, c);
    var e := Act(s.sh, t, p, c);
    StepKeeps(s, t, e.sh, e.pc);
    var s' := s.To(t, e.sh, e.pc);
    if p.Offer? && s.Pc(Runner) == Serving {
      assert s'.Pc(Runner) == Serving;
      OfferKeeps(s');
    } else if p.Dial? && c > 0 {
      StartKeeps(s');
    }
  }

  /** No schedule whatever makes a goroutine send on a closed channel, close a channel
      twice or handle a share that is not there; and whenever notify is closed, the
      connection is nil or closed. */
  lemma {:induction false} NoFault(moves: seq<Move>)
    ensures Inv(Run(moves))
    ensures !Run(moves).fault
    ensures var sh := Run(moves).sh; sh.notifyClosed ==> !sh.created || sh.connClosed
  {
    if moves == [] {
      InitialInv();
    } else {
      var init, m := moves[..|moves| - 1], moves[|moves| - 1];
      NoFault(init);
      ExecKeeps(Run(init), m.tid, m.choice);
    }
  }

  /** It matters that nothing sends 1 on done: shutdown(1) leaves the connection open, and
      a reader about to send would find notify closed. */
  lemma ShutdownByPoolWouldFault(s: State)
    requires s.Pc(Runner) == HasMu(Shutdown(1)) && s.Pc(Reader) == ReadPut
    requires !s.sh.isClosed && !s.sh.doneClosed && !s.sh.notifyClosed
    ensures Exec(Exec(Exec(Exec(s, Runner, 0), Runner, 0), Runner, 0), Reader, 1).fault
  {
    var s1 := Exec(s, Runner, 0);
    assert s1 == s.At(Runner, CloseDone(AEnd, false));
    CloseDoneThenNotify(s1);
  }

  lemma CloseDoneThenNotify(s: State)
    requires s.Pc(Runner) == CloseDone(AEnd, false) && s.Pc(Reader) == ReadPut
    requires !s.sh.doneClosed && !s.sh.notifyClosed
    ensures Exec(Exec(Exec(s, Runner, 0), Runner, 0), Reader, 1).fault
  {
    var s1 := Exec(s, Runner, 0);
    assert s1.Pc(Runner) == CloseNotify(AEnd) && !s1.sh.notifyClosed && s1.Pc(Reader) == ReadPut;
    var s2 := Exec(s1, Runner, 0);
    assert s2.sh.notifyClosed && s2.Pc(Reader) == ReadPut;
  }
}
