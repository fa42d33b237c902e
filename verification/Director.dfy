/** Share accounting of the director (server/proxy/director.go), step by step: removals
    and statistics overlap with each other and with shares being counted. Totals are
    below 2^64 except in NewShares, which wraps as the source's does. */
module Director {
  import opened Words
  import opened Wrappers

  /** Removal adds the shares of a proxy to deleteShares (Half), then deletes it (Gone). */
  datatype Status = Live | Half | Gone

  /** A proxy, and what the current Range has done with it: waiting, or seen with so many
      shares. Proxy i has id i + 1. */
  datatype Proxy = Proxy(shares: nat, status: Status, waiting: bool, seen: Option<nat>)

  datatype Phase = NoScan | Ranging | Loading

  datatype State = State(
    proxies: seq<Proxy>, deleteShares: nat, lastTotalShares: nat, newShares: uint64,
    phase: Phase, total: nat,
    counted: nat,      // all shares ever counted
    startCounted: nat, // of those, the ones counted when the Range began
    loadCounted: nat,  // and when the last GetStats loaded deleteShares
    doubled: nat,      // shares that the last GetStats met twice
    missed: nat)       // shares counted by then that it did not meet

  datatype Action = AddProxy | Count(i: nat) | RemoveAdd(i: nat) | RemoveDelete(i: nat)
    | RangeBegin | RangeVisit(i: nat) | RangeEnd | Load

  const INITIAL: State := State([], 0, 0, 0, NoScan, 0, 0, 0, 0, 0, 0)

  function Total(ps: seq<Proxy>, f: Proxy -> nat): nat {
    if ps == [] then 0 else Total(ps[..|ps| - 1], f) + f(ps[|ps| - 1])
  }

  /** Shares that are counted in the proxy only. */
  function Own(p: Proxy): nat {
    if p.status == Live then p.shares else 0
  }

  function OwnWaiting(p: Proxy): nat {
    if p.status == Live && p.waiting then p.shares else 0
  }

  function Seen(p: Proxy): nat {
    if p.seen.Some? then p.seen.value else 0
  }

  /** What Range saw of a proxy whose shares are in deleteShares as well. */
  function SeenTwice(p: Proxy): nat {
    if p.status != Live then Seen(p) else 0
  }

  /** What a live proxy counted that Range has not seen. */
  function Missed(p: Proxy): nat {
    if p.status == Live && p.shares >= Seen(p) then p.shares - Seen(p) else 0
  }

  function Fresh(p: Proxy): Proxy {
    p.(waiting := p.status != Gone, seen := None)
  }

  /** One step; a step that is not possible, or has to wait for the map's lock, does
      nothing. A proxy being removed has its connMu held, so its count stands still. */
  function Step(s: State, a: Action): State {
    match a
    case AddProxy =>
      if s.phase == Ranging then s else s.(proxies := s.proxies + [Proxy(0, Live, false, None)])
    case Count(i) =>
      if i < |s.proxies| && s.proxies[i].status == Live
      then s.(proxies := s.proxies[i := s.proxies[i].(shares := s.proxies[i].shares + 1)], counted := s.counted + 1)
      else s
    case RemoveAdd(i) =>
      if i < |s.proxies| && s.proxies[i].status == Live
      then s.(proxies := s.proxies[i := s.proxies[i].(status := Half)], deleteShares := s.deleteShares + s.proxies[i].shares)
      else s
    case RemoveDelete(i) =>
      if i < |s.proxies| && s.proxies[i].status == Half && s.phase != Ranging
      then s.(proxies := s.proxies[i := s.proxies[i].(status := Gone)])
      else s
    case RangeBegin =>
      if s.phase != NoScan then s
      else s.(proxies := seq(|s.proxies|, i requires 0 <= i < |s.proxies| => Fresh(s.proxies[i])),
              phase := Ranging, total := 0, startCounted := s.counted)
    case RangeVisit(i) =>
      if s.phase == Ranging && i < |s.proxies| && s.proxies[i].waiting
      then s.(proxies := s.proxies[i := s.proxies[i].(waiting := false, seen := Some(s.proxies[i].shares))],
              total := s.total + s.proxies[i].shares)
      else s
    case RangeEnd =>
      if s.phase == Ranging && (forall i | 0 <= i < |s.proxies| :: !s.proxies[i].waiting) then s.(phase := Loading) else s
    case Load =>
      if s.phase != Loading then s
      else
        var total := s.total + s.deleteShares;
        s.(phase := NoScan, total := total, lastTotalShares := total,
           newShares := (total - s.lastTotalShares) % TWO_64,
           loadCounted := s.counted, doubled := Total(s.proxies, SeenTwice), missed := Total(s.proxies, Missed))
  }

  function Run(actions: seq<Action>): State {
    if actions == [] then INITIAL else Step(Run(actions[..|actions| - 1]), actions[|actions| - 1])
  }

  ghost predicate Inv(s: State) {
    // Nothing counted is lost, and nothing is in two places.
    && s.counted == Total(s.proxies, Own) + s.deleteShares
    && (forall i | 0 <= i < |s.proxies| :: var p := s.proxies[i];
          && (p.waiting ==> s.phase == Ranging && p.seen.None? && p.status != Gone)
          && (p.seen.Some? ==> p.seen.value <= p.shares))
    && (s.phase != NoScan ==>
          && s.total == Total(s.proxies, Seen)
          && s.startCounted <= s.total + Total(s.proxies, OwnWaiting) + s.deleteShares
          && s.loadCounted <= s.startCounted)
    && s.startCounted <= s.counted && s.loadCounted <= s.counted
    && s.lastTotalShares + s.missed == s.loadCounted + s.doubled
  }

  lemma {:induction false} TotalUpdate(ps: seq<Proxy>, i: nat, p: Proxy, f: Proxy -> nat)
    requires i < |ps|
    ensures Total(ps[i := p], f) + f(ps[i]) == Total(ps, f) + f(p)
  {
    var m := |ps| - 1;
    if i < m {
      TotalUpdate(ps[..m], i, p, f);
      assert ps[i := p][..m] == ps[..m][i := p];
    } else {
      assert ps[i := p][..m] == ps[..m];
    }
  }

  lemma TotalAppend(ps: seq<Proxy>, p: Proxy, f: Proxy -> nat)
    ensures Total(ps + [p], f) == Total(ps, f) + f(p)
  {
    assert (ps + [p])[..|ps|] == ps;
  }

  lemma {:induction false} TotalZero(ps: seq<Proxy>, f: Proxy -> nat)
    ensures Total(ps, f) == 0 <==> forall i | 0 <= i < |ps| :: f(ps[i]) == 0
  {
    if ps != [] {
      var m := |ps| - 1;
      TotalZero(ps[..m], f);
      assert forall i | 0 <= i < m :: ps[..m][i] == ps[i];
    }
  }

  /** A function of the proxies that a step does not change, summed. */
  lemma {:induction false} TotalSame(ps: seq<Proxy>, qs: seq<Proxy>, f: Proxy -> nat, g: Proxy -> nat)
    requires |ps| == |qs| && forall i | 0 <= i < |ps| :: f(ps[i]) == g(qs[i])
    ensures Total(ps, f) == Total(qs, g)
  {
    if ps != [] {
      var m := |ps| - 1;
      TotalSame(ps[..m], qs[..m], f, g);
    }
  }

  /** What Range met and missed makes up what there is and what was met twice. */
  lemma {:induction false} MetAndMissed(ps: seq<Proxy>)
    requires forall i | 0 <= i < |ps| :: Seen(ps[i]) <= ps[i].shares
    ensures Total(ps, Seen) + Total(ps, Missed) == Total(ps, Own) + Total(ps, SeenTwice)
  {
    if ps != [] {
      MetAndMissed(ps[..|ps| - 1]);
    }
  }

  lemma UpdateAll(ps: seq<Proxy>, i: nat, p: Proxy)
    requires i < |ps|
    ensures Total(ps[i := p], Own) + Own(ps[i]) == Total(ps, Own) + Own(p)
    ensures Total(ps[i := p], OwnWaiting) + OwnWaiting(ps[i]) == Total(ps, OwnWaiting) + OwnWaiting(p)
    ensures Total(ps[i := p], Seen) + Seen(ps[i]) == Total(ps, Seen) + Seen(p)
  {
    TotalUpdate(ps, i, p, Own);
    TotalUpdate(ps, i, p, OwnWaiting);
    TotalUpdate(ps, i, p, Seen);
  }

  lemma AppendKeeps(s: State)
    requires Inv(s)
    ensures Inv(Step(s, AddProxy))
  {
    if s.phase != Ranging {
      var p := Proxy(0, Live, false, None);
      TotalAppend(s.proxies, p, Own);
      TotalAppend(s.proxies, p, OwnWaiting);
      TotalAppend(s.proxies, p, Seen);
      assert Step(s, AddProxy) == s.(proxies := s.proxies + [p]);
    }
  }

  lemma CountKeeps(s: State, i: nat)
    requires Inv(s) && i < |s.proxies| && s.proxies[i].status == Live
    ensures Inv(Step(s, Count(i)))
  {
    UpdateAll(s.proxies, i, s.proxies[i].(shares := s.proxies[i].shares + 1));
  }

  lemma RemoveAddKeeps(s: State, i: nat)
    requires Inv(s) && i < |s.proxies| && s.proxies[i].status == Live
    ensures Inv(Step(s, RemoveAdd(i)))
  {
    UpdateAll(s.proxies, i, s.proxies[i].(status := Half));
  }

  lemma RemoveDeleteKeeps(s: State, i: nat)
    requires Inv(s) && i < |s.proxies| && s.proxies[i].status == Half && s.phase != Ranging
    ensures Inv(Step(s, RemoveDelete(i)))
  {
    UpdateAll(s.proxies, i, s.proxies[i].(status := Gone));
  }

  lemma VisitKeeps(s: State, i: nat)
    requires Inv(s) && s.phase == Ranging && i < |s.proxies| && s.proxies[i].waiting
    ensures Inv(Step(s, RangeVisit(i)))
  {
    UpdateAll(s.proxies, i, s.proxies[i].(waiting := false, seen := Some(s.proxies[i].shares)));
  }

  lemma BeginKeeps(s: State)
    requires Inv(s)
    ensures Inv(Step(s, RangeBegin))
  {
    if s.phase == NoScan {
      var s' := Step(s, RangeBegin);
      TotalSame(s'.proxies, s.proxies, Own, Own);
      TotalSame(s'.proxies, s.proxies, OwnWaiting, Own);
      TotalSame(s'.proxies, s.proxies, Seen, _ => 0);
      NothingTotal(s.proxies);
    }
  }

  lemma {:induction false} NothingTotal(ps: seq<Proxy>)
    ensures Total(ps, _ => 0) == 0
  {
    if ps != [] {
      NothingTotal(ps[..|ps| - 1]);
    }
  }

  lemma LoadKeeps(s: State)
    requires Inv(s)
    ensures Inv(Step(s, Load))
  {
    if s.phase == Loading {
      MetAndMissed(s.proxies);
    }
  }

  lemma StepKeeps(s: State, a: Action)
    requires Inv(s)
    ensures Inv(Step(s, a))
  {
    match a
    case AddProxy => AppendKeeps(s);
    case RangeBegin => BeginKeeps(s);
    case RangeEnd =>
    case Load => LoadKeeps(s);
    case Count(i) => if i < |s.proxies| && s.proxies[i].status == Live { CountKeeps(s, i); }
    case RemoveAdd(i) => if i < |s.proxies| && s.proxies[i].status == Live { RemoveAddKeeps(s, i); }
    case RemoveDelete(i) => if i < |s.proxies| && s.proxies[i].status == Half && s.phase != Ranging { RemoveDeleteKeeps(s, i); }
    case RangeVisit(i) => if s.phase == Ranging && i < |s.proxies| && s.proxies[i].waiting { VisitKeeps(s, i); }
  }

  /** Over every run, and so whatever removals are under way: what was counted is in a
      live proxy or in deleteShares, exactly once. */
  lemma {:induction false} SharesAreConserved(actions: seq<Action>)
    ensures Inv(Run(actions))
    ensures Run(actions).counted == Total(Run(actions).proxies, Own) + Run(actions).deleteShares
  {
    if actions != [] {
      SharesAreConserved(actions[..|actions| - 1]);
      StepKeeps(Run(actions[..|actions| - 1]), actions[|actions| - 1]);
    }
  }

  /** What a load reports, in a state that no visit is outstanding in. */
  lemma LoadReports(s: State)
    requires Inv(s) && s.phase == Loading && forall i | 0 <= i < |s.proxies| :: !s.proxies[i].waiting
    ensures var total := Step(s, Load).lastTotalShares;
      && total == s.total + s.deleteShares
      && s.startCounted <= total <= s.counted + Total(s.proxies, SeenTwice)
      && total + Total(s.proxies, Missed) == s.counted + Total(s.proxies, SeenTwice)
      && (total <= s.counted <==> Total(s.proxies, SeenTwice) <= Total(s.proxies, Missed))
  {
    MetAndMissed(s.proxies);
    TotalZero(s.proxies, OwnWaiting);
  }

  /** GetStats never reports fewer shares than were counted when its Range began. It
      reports what is counted when it loads, plus what it met twice, less what it missed;
      so it reports too many exactly if it met more twice than it missed. */
  lemma StatsAreBounded(actions: seq<Action>)
    requires Run(actions).phase == Loading
    ensures var s, r := Run(actions), Step(Run(actions), Load);
      && s.startCounted <= r.lastTotalShares <= s.counted + Total(s.proxies, SeenTwice)
      && r.lastTotalShares + Total(s.proxies, Missed) == s.counted + Total(s.proxies, SeenTwice)
      && (r.lastTotalShares <= s.counted <==> Total(s.proxies, SeenTwice) <= Total(s.proxies, Missed))
  {
    SharesAreConserved(actions);
    NoneWaiting(actions);
    LoadReports(Run(actions));
  }

  lemma {:induction false} NoneWaiting(actions: seq<Action>)
    requires Run(actions).phase != Ranging
    ensures forall i | 0 <= i < |Run(actions).proxies| :: !Run(actions).proxies[i].waiting
  {
    SharesAreConserved(actions);
  }

  /** Whether the earlier report's surplus and this one's loss are made up for by what
      was counted in between, the earlier one's loss and this one's surplus. */
  ghost predicate MadeUp(s: State) {
    s.doubled + Total(s.proxies, Missed) <= (s.counted - s.loadCounted) + s.missed + Total(s.proxies, SeenTwice)
  }

  lemma LoadDifference(s: State)
    requires Inv(s) && s.phase == Loading && forall i | 0 <= i < |s.proxies| :: !s.proxies[i].waiting
    ensures var d := Step(s, Load).lastTotalShares - s.lastTotalShares;
      && (d >= 0 <==> MadeUp(s))
      && (Step(s, Load).lastTotalShares < TWO_64 ==> (Step(s, Load).newShares == d <==> d >= 0))
      && (0 <= d < TWO_64 ==> Step(s, Load).newShares == d)
      && (s.doubled == 0 ==> d >= 0)
  {
    LoadReports(s);
    Difference(s.total + s.deleteShares, s.lastTotalShares);
  }

  lemma Difference(a: nat, b: nat)
    ensures a < TWO_64 ==> ((a - b) % TWO_64 == a - b <==> b <= a)
    ensures 0 <= a - b < TWO_64 ==> (a - b) % TWO_64 == a - b
  {
  }

  /** NewShares is the true difference of two reports, not a wrapped one, exactly then. */
  lemma NewSharesExactly(actions: seq<Action>)
    requires Run(actions).phase == Loading && Step(Run(actions), Load).lastTotalShares < TWO_64
    ensures var s, r := Run(actions), Step(Run(actions), Load);
      r.newShares == r.lastTotalShares - s.lastTotalShares <==> MadeUp(s)
  {
    SharesAreConserved(actions);
    NoneWaiting(actions);
    LoadDifference(Run(actions));
  }

  /** In particular it is if the earlier report met nothing twice. */
  lemma NewSharesDoNotWrap(actions: seq<Action>)
    requires Run(actions).phase == Loading && Run(actions).doubled == 0
    ensures var s, r := Run(actions), Step(Run(actions), Load);
      && s.lastTotalShares <= r.lastTotalShares
      && (r.lastTotalShares - s.lastTotalShares < TWO_64 ==> r.newShares == r.lastTotalShares - s.lastTotalShares)
  {
    SharesAreConserved(actions);
    NoneWaiting(actions);
    LoadDifference(Run(actions));
  }

  // What a Range visits and when a share is met twice, from the history of steps alone.

  /** What the steps so far have done to one proxy: removeProxy has added its shares, has
      deleted it; it was in the map when the last Range began; shares it counted; shares
      it had when that Range visited it. */
  datatype Past = Past(moved: bool, deleted: bool, inRange: bool, counted: nat, seen: Option<nat>)

  predicate Begins(s: State, a: Action) {
    a == RangeBegin && s.phase == NoScan
  }

  /** One more step; of the state only the phase and the number of proxies matter. */
  function NextPast(s: State, h: Past, a: Action, i: nat): Past {
    if i >= |s.proxies| then h
    else match a
      case Count(k) => if k == i && !h.moved then h.(counted := h.counted + 1) else h
      case RemoveAdd(k) => if k == i then h.(moved := true) else h
      case RemoveDelete(k) => if k == i && h.moved && s.phase != Ranging then h.(deleted := true) else h
      case RangeBegin => if s.phase == NoScan then h.(inRange := !h.deleted, seen := None) else h
      case RangeVisit(k) =>
        if k == i && s.phase == Ranging && h.inRange && h.seen == None then h.(seen := Some(h.counted)) else h
      case _ => h
  }

  function PastOf(actions: seq<Action>, i: nat): Past {
    if actions == [] then Past(false, false, false, 0, None)
    else NextPast(Run(actions[..|actions| - 1]), PastOf(actions[..|actions| - 1], i), actions[|actions| - 1], i)
  }

  /** The state of a proxy is what its past says. */
  ghost predicate Remembered(s: State, h: Past, i: nat) {
    && (h.deleted ==> h.moved) && (h.seen.Some? ==> h.inRange)
    && (s.phase != Ranging && h.inRange ==> h.seen.Some?)
    && if i < |s.proxies| then
         s.proxies[i] == Proxy(h.counted, if h.deleted then Gone else if h.moved then Half else Live,
                               s.phase == Ranging && h.inRange && h.seen == None, h.seen)
       else h == Past(false, false, false, 0, None)
  }

  lemma StepRemembered(s: State, h: Past, a: Action, i: nat)
    requires Inv(s) && Remembered(s, h, i)
    ensures Remembered(Step(s, a), NextPast(s, h, a, i), i)
  {
    match a
    case RangeBegin =>
    case RangeEnd => assert i < |s.proxies| ==> (!s.proxies[i].waiting <==> !(s.phase == Ranging && h.inRange && h.seen == None));
    case _ =>
  }

  lemma {:induction false} HistoryOf(actions: seq<Action>, i: nat)
    ensures Remembered(Run(actions), PastOf(actions, i), i)
  {
    if actions != [] {
      var init, last := actions[..|actions| - 1], actions[|actions| - 1];
      HistoryOf(init, i);
      SharesAreConserved(init);
      StepRemembered(Run(init), PastOf(init, i), last, i);
    }
  }

  /** When GetStats loads, its Range has visited exactly the proxies that had been added and
      not deleted when it began, at all stages of removal, each with the shares it had
      counted by the time of its visit. */
  lemma RangeVisitsAll(actions: seq<Action>, i: nat)
    requires Run(actions).phase == Loading
    ensures InRange(actions, i) <==> PastOf(actions, i).seen.Some?
    ensures i < |Run(actions).proxies| ==> Run(actions).proxies[i].seen == PastOf(actions, i).seen
  {
    HistoryOf(actions, i);
  }

  predicate BeginsAt(actions: seq<Action>, k: nat)
    requires k < |actions|
  {
    Begins(Run(actions[..k]), actions[k])
  }

  lemma BeginsBefore(actions: seq<Action>, m: nat, k: nat)
    requires k < m <= |actions|
    ensures BeginsAt(actions[..m], k) == BeginsAt(actions, k)
  {
    assert actions[..m][..k] == actions[..k];
  }

  /** The proxy is in the map: it has been added and not been deleted. */
  ghost predicate InMap(actions: seq<Action>, i: nat) {
    i < |Run(actions).proxies| && !PastOf(actions, i).deleted
  }

  ghost predicate InRange(actions: seq<Action>, i: nat) {
    PastOf(actions, i).inRange
  }

  lemma RangeOfStep(actions: seq<Action>, m: nat, i: nat)
    requires |actions| == m + 1
    ensures BeginsAt(actions, m) ==> (InRange(actions, i) <==> InMap(actions[..m], i))
    ensures !BeginsAt(actions, m) ==> (InRange(actions, i) <==> InRange(actions[..m], i))
  {
    HistoryOf(actions[..m], i);
    RangeOfNext(Run(actions[..m]), PastOf(actions[..m], i), actions[m], i);
  }

  lemma RangeOfNext(s: State, h: Past, a: Action, i: nat)
    requires Remembered(s, h, i)
    ensures Begins(s, a) ==> (NextPast(s, h, a, i).inRange <==> i < |s.proxies| && !h.deleted)
    ensures !Begins(s, a) ==> NextPast(s, h, a, i).inRange == h.inRange
  {
  }

  /** What a Range covers is what was in the map when it began, at step b. */
  lemma {:induction false} InRangeExactly(actions: seq<Action>, b: nat, i: nat)
    requires b < |actions| && BeginsAt(actions, b)
    requires forall k | b < k < |actions| :: !BeginsAt(actions, k)
    ensures InRange(actions, i) <==> InMap(actions[..b], i)
  {
    var m := |actions| - 1;
    var init := actions[..m];
    RangeOfStep(actions, m, i);
    if b < m {
      BeginsBefore(actions, m, b);
      forall k | b < k < m ensures !BeginsAt(init, k) {
        BeginsBefore(actions, m, k);
      }
      InRangeExactly(init, b, i);
      assert init[..b] == actions[..b];
    }
  }

  ghost predicate MovedBy(actions: seq<Action>, i: nat) {
    PastOf(actions, i).moved
  }

  /** The current Range, or the last one, has visited the proxy with shares in it. */
  ghost predicate VisitedBy(actions: seq<Action>, i: nat) {
    PastOf(actions, i).seen.Some? && PastOf(actions, i).seen.value > 0
  }

  /** Proxy i has been visited with shares in it, and its shares have been moved, be it
      before the visit or after. */
  ghost predicate MetTwice(actions: seq<Action>, i: nat) {
    VisitedBy(actions, i) && MovedBy(actions, i)
  }

  lemma MetTwiceSeen(actions: seq<Action>, i: nat)
    ensures MetTwice(actions, i)
      <==> i < |Run(actions).proxies| && SeenTwice(Run(actions).proxies[i]) != 0
  {
    HistoryOf(actions, i);
  }

  /** A report meets nothing twice exactly if there is no such proxy when it loads. */
  lemma MetTwiceExactly(actions: seq<Action>)
    ensures Total(Run(actions).proxies, SeenTwice) == 0 <==> forall i: nat :: !MetTwice(actions, i)
  {
    var ps := Run(actions).proxies;
    TotalZero(ps, SeenTwice);
    forall i: nat ensures MetTwice(actions, i) <==> i < |ps| && SeenTwice(ps[i]) != 0 {
      MetTwiceSeen(actions, i);
    }
    if i: nat :| i < |ps| && SeenTwice(ps[i]) != 0 {
      assert MetTwice(actions, i);
    }
  }

  lemma Then(actions: seq<Action>, a: Action) returns (more: seq<Action>)
    ensures more == actions + [a] && Run(more) == Step(Run(actions), a)
  {
    more := actions + [a];
    assert more[..|actions|] == actions;
  }

  /** A removal between the visit and the load: one share is reported as two. */
  lemma ReportedTwice() returns (actions: seq<Action>)
    ensures actions == [AddProxy, Count(0), RangeBegin, RangeVisit(0), RemoveAdd(0), RangeEnd, Load]
    ensures Run(actions) == State([Proxy(1, Half, false, Some(1))], 1, 2, 2, NoScan, 2, 1, 1, 1, 1, 0)
  {
    actions := Then([], AddProxy);
    actions := Then(actions, Count(0));
    assert Run(actions) == State([Proxy(1, Live, false, None)], 0, 0, 0, NoScan, 0, 1, 0, 0, 0, 0);
    actions := Then(actions, RangeBegin);
    assert Run(actions) == State([Proxy(1, Live, true, None)], 0, 0, 0, Ranging, 0, 1, 1, 0, 0, 0);
    actions := Then(actions, RangeVisit(0));
    actions := Then(actions, RemoveAdd(0));
    assert Run(actions) == State([Proxy(1, Half, false, Some(1))], 1, 0, 0, Ranging, 1, 1, 1, 0, 0, 0);
    actions := Then(actions, RangeEnd);
    actions := Then(actions, Load);
  }

  /** So is one whose removal has added its shares before the Range, but not yet deleted
      the proxy. */
  lemma VisitedAfterMove() returns (actions: seq<Action>)
    ensures actions == [AddProxy, Count(0), RemoveAdd(0), RangeBegin, RangeVisit(0), RangeEnd, Load]
    ensures Run(actions).counted == 1 && Run(actions).lastTotalShares == 2
  {
    actions := Then([], AddProxy);
    actions := Then(actions, Count(0));
    assert Run(actions) == State([Proxy(1, Live, false, None)], 0, 0, 0, NoScan, 0, 1, 0, 0, 0, 0);
    actions := Then(actions, RemoveAdd(0));
    actions := Then(actions, RangeBegin);
    assert Run(actions) == State([Proxy(1, Half, true, None)], 1, 0, 0, Ranging, 0, 1, 1, 0, 0, 0);
    actions := Then(actions, RangeVisit(0));
    actions := Then(actions, RangeEnd);
    assert Run(actions) == State([Proxy(1, Half, false, Some(1))], 1, 0, 0, Loading, 1, 1, 1, 0, 0, 0);
    actions := Then(actions, Load);
  }

  /** Then NewShares does wrap: the next report says that 2^64 - 1 shares are new. */
  lemma NewSharesCanWrap() returns (actions: seq<Action>)
    ensures Run(actions).newShares == TWO_64 - 1
  {
    actions := ReportedTwice();
    actions := Then(actions, RemoveDelete(0));
    assert Run(actions) == State([Proxy(1, Gone, false, Some(1))], 1, 2, 2, NoScan, 2, 1, 1, 1, 1, 0);
    actions := Then(actions, RangeBegin);
    assert Run(actions) == State([Proxy(1, Gone, false, None)], 1, 2, 2, Ranging, 0, 1, 1, 1, 1, 0);
    actions := Then(actions, RangeEnd);
    actions := Then(actions, Load);
  }
}
