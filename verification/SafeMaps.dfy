/** The two-generation map of server/utils/safemap.go. The pure half says what every
    call does to the two generations; the class does it in place. */
module SafeMaps {
  import opened Words
  import opened Wrappers

  const COPY_THRESHOLD: nat := 1000
  const MAX_DELETION: nat := 10000

  datatype Generations<V> = Generations(
    dirtyOld: map<uint64, V>, dirtyNew: map<uint64, V>, deletionOld: nat, deletionNew: nat)
  {
    /** The ordinary map that the two generations stand for. */
    ghost function Contents(): map<uint64, V> {
      dirtyOld + dirtyNew
    }

    /** What holds in every reachable state. */
    ghost predicate Valid() {
      && dirtyOld.Keys !! dirtyNew.Keys
      && (dirtyNew != map[] || deletionNew > 0 ==> deletionOld > MAX_DELETION)
      && (deletionNew >= MAX_DELETION ==> |dirtyNew| >= COPY_THRESHOLD)
    }

    function Set(key: uint64, value: V): Generations<V> {
      if deletionOld <= MAX_DELETION then
        Generations(dirtyOld[key := value], dirtyNew - {key},
                    deletionOld, deletionNew + if key in dirtyNew then 1 else 0)
      else
        Generations(dirtyOld - {key}, dirtyNew[key := value],
                    deletionOld + if key in dirtyOld then 1 else 0, deletionNew)
    }

    /** Del before it considers any migration. */
    function Drop(key: uint64): Generations<V> {
      if key in dirtyOld then
        this.(dirtyOld := dirtyOld - {key}, deletionOld := deletionOld + 1)
      else if key in dirtyNew then
        this.(dirtyNew := dirtyNew - {key}, deletionNew := deletionNew + 1)
      else this
    }

    predicate OldIsSparse() {
      deletionOld >= MAX_DELETION && |dirtyOld| < COPY_THRESHOLD
    }

    predicate NewIsSparse() {
      deletionNew >= MAX_DELETION && |dirtyNew| < COPY_THRESHOLD
    }

    function PromoteNew(): Generations<V> {
      if OldIsSparse() then Generations(dirtyNew + dirtyOld, map[], deletionNew, 0) else this
    }

    function FoldNew(): Generations<V> {
      if NewIsSparse() then Generations(dirtyOld + dirtyNew, map[], deletionOld, 0) else this
    }

    function Del(key: uint64): Generations<V> {
      Drop(key).PromoteNew().FoldNew()
    }

    /** How many entries the migrations of a Del copy. */
    function DelCopies(key: uint64): nat {
      var dropped := Drop(key);
      (if dropped.OldIsSparse() then |dropped.dirtyOld| else 0)
      + (if dropped.PromoteNew().NewIsSparse() then |dropped.PromoteNew().dirtyNew| else 0)
    }

    /** The potential of the amortised bound: the deletions counted and not yet spent. */
    function Counted(): nat {
      deletionOld + deletionNew
    }

    function Size(): nat {
      |dirtyOld| + |dirtyNew|
    }

    /** The counted deletions that the migrations of a Del write off. */
    function DelSpends(key: uint64): nat {
      var dropped := Drop(key);
      (if dropped.OldIsSparse() then dropped.deletionOld else 0)
      + (if dropped.PromoteNew().NewIsSparse() then dropped.PromoteNew().deletionNew else 0)
    }

    function Step(op: Op<V>): Generations<V> {
      match op
      case OpSet(key, value) => Set(key, value)
      case OpDel(key) => Del(key)
    }

    function SpentBy(op: Op<V>): nat {
      if op.OpDel? then DelSpends(op.key) else 0
    }

    function CopiedBy(op: Op<V>): nat {
      if op.OpDel? then DelCopies(op.key) else 0
    }

    /** One if the call adds an entry to the generation it writes to. */
    function AddedBy(op: Op<V>): nat {
      if op.OpSet? && op.key !in (if deletionOld <= MAX_DELETION then dirtyOld else dirtyNew) then 1 else 0
    }
  }

  datatype Op<V> = OpSet(key: uint64, value: V) | OpDel(key: uint64)

  function Empty<V>(): Generations<V> {
    Generations(map[], map[], 0, 0)
  }

  /** The state after a run of calls on a new SafeMap. */
  function Run<V>(ops: seq<Op<V>>): Generations<V> {
    if ops == [] then Empty() else Run(ops[..|ops| - 1]).Step(ops[|ops| - 1])
  }

  /** The same run on an ordinary map. */
  function PlainRun<V>(ops: seq<Op<V>>): map<uint64, V> {
    if ops == [] then map[] else PlainStep(PlainRun(ops[..|ops| - 1]), ops[|ops| - 1])
  }

  function PlainStep<V>(m: map<uint64, V>, op: Op<V>): map<uint64, V> {
    match op
    case OpSet(key, value) => m[key := value]
    case OpDel(key) => m - {key}
  }

  /** Entries copied by all migrations of a run. */
  function Copies<V>(ops: seq<Op<V>>): nat {
    if ops == [] then 0
    else Copies(ops[..|ops| - 1]) + Run(ops[..|ops| - 1]).CopiedBy(ops[|ops| - 1])
  }

  /** How a write or a removal in one of two disjoint maps shows in their union. */
  lemma UnionSet<V>(a: map<uint64, V>, b: map<uint64, V>, k: uint64, v: V)
    requires a.Keys !! b.Keys
    ensures a[k := v] + (b - {k}) == (a + b)[k := v] == (a - {k}) + b[k := v]
    ensures a[k := v].Keys !! (b - {k}).Keys && (a - {k}).Keys !! b[k := v].Keys
  {
  }

  lemma UnionDrop<V>(a: map<uint64, V>, b: map<uint64, V>, k: uint64)
    requires a.Keys !! b.Keys
    ensures k !in b ==> (a - {k}) + b == (a + b) - {k}
    ensures k !in a ==> a + (b - {k}) == (a + b) - {k}
  {
    assert k !in b ==> b - {k} == b;
    assert k !in a ==> a - {k} == a;
  }

  lemma UnionCommutes<V>(a: map<uint64, V>, b: map<uint64, V>)
    requires a.Keys !! b.Keys
    ensures a + b == b + a && |a + b| == |a| + |b|
  {
    assert (a + b).Keys == a.Keys + b.Keys;
  }

  /** All of `from` but the keys still to do is copied into `into`. */
  ghost predicate HalfCopied<V>(result: map<uint64, V>, from: map<uint64, V>, into: map<uint64, V>, todo: set<uint64>) {
    && result.Keys == into.Keys + (from.Keys - todo)
    && forall k | k in result :: result[k] == if k in from && k !in todo then from[k] else into[k]
  }

  lemma CopyStep<V>(result: map<uint64, V>, from: map<uint64, V>, into: map<uint64, V>, todo: set<uint64>, k: uint64)
    requires todo <= from.Keys && k in todo && HalfCopied(result, from, into, todo)
    ensures HalfCopied(result[k := from[k]], from, into, todo - {k})
  {
  }

  lemma CopyEnds<V>(from: map<uint64, V>, into: map<uint64, V>)
    ensures HalfCopied(into, from, into, from.Keys)
    ensures forall result | HalfCopied(result, from, into, {}) :: result == into + from
  {
  }

  lemma InsertGrows<V>(m: map<uint64, V>, k: uint64, v: V)
    ensures |m[k := v]| >= |m|
  {
    assert m[k := v].Keys == m.Keys + {k};
  }

  lemma SetContents<V>(g: Generations<V>, key: uint64, value: V)
    requires g.Valid()
    ensures g.Set(key, value).Contents() == g.Contents()[key := value]
    ensures g.Set(key, value).dirtyOld.Keys !! g.Set(key, value).dirtyNew.Keys
  {
    UnionSet(g.dirtyOld, g.dirtyNew, key, value);
  }

  /** A Set keeps the invariant, counts at most one deletion, and never has anything to
      take out of the new generation when it writes to the old one. */
  lemma SetStep<V>(g: Generations<V>, key: uint64, value: V)
    requires g.Valid()
    ensures g.Set(key, value).Valid()
    ensures g.Set(key, value).Counted() <= g.Counted() + 1
    ensures g.deletionOld <= MAX_DELETION ==> key !in g.dirtyNew
  {
    SetContents(g, key, value);
    InsertGrows(g.dirtyNew, key, value);
    if g.deletionOld <= MAX_DELETION {
      assert g.dirtyNew == map[];
      assert g.dirtyNew - {key} == map[];
    }
  }

  /** The invariant, but for the part that the migrations restore. */
  ghost predicate Dropped<V>(g: Generations<V>) {
    && g.dirtyOld.Keys !! g.dirtyNew.Keys
    && (g.dirtyNew != map[] || g.deletionNew > 0 ==> g.deletionOld > MAX_DELETION)
  }

  lemma DropContents<V>(g: Generations<V>, key: uint64)
    requires g.Valid()
    ensures g.Drop(key).Contents() == g.Contents() - {key}
  {
    UnionDrop(g.dirtyOld, g.dirtyNew, key);
  }

  lemma DropKeeps<V>(g: Generations<V>, key: uint64)
    requires g.Valid()
    ensures Dropped(g.Drop(key))
    ensures g.Drop(key).Counted() <= g.Counted() + 1
  {
    if key in g.dirtyNew {
      assert g.dirtyNew != map[];
    }
  }

  lemma MigrateStep<V>(d: Generations<V>)
    requires Dropped(d)
    ensures d.PromoteNew().FoldNew().Valid()
    ensures d.PromoteNew().FoldNew().Contents() == d.Contents()
    ensures d.OldIsSparse() ==> !d.PromoteNew().NewIsSparse()
    ensures d.OldIsSparse() || d.NewIsSparse() ==>
      d.PromoteNew().FoldNew().Counted() + MAX_DELETION <= d.Counted()
  {
    UnionCommutes(d.dirtyOld, d.dirtyNew);
  }

  /** A Del keeps the invariant, removes its key and nothing else, and the entries it
      copies are fewer than the threshold and paid for by deletions it spends. */
  lemma DelStep<V>(g: Generations<V>, key: uint64)
    requires g.Valid()
    ensures g.Del(key).Valid()
    ensures g.Del(key).Contents() == g.Contents() - {key}
    ensures g.DelCopies(key) < COPY_THRESHOLD
    ensures g.DelCopies(key) > 0 ==> g.Del(key).Counted() + MAX_DELETION <= g.Counted() + 1
    ensures g.Del(key).Counted() <= g.Counted() + 1
  {
    DropContents(g, key);
    DropKeeps(g, key);
    MigrateStep(g.Drop(key));
  }

  lemma StepRefines<V>(g: Generations<V>, op: Op<V>)
    requires g.Valid()
    ensures g.Step(op).Valid()
    ensures g.Step(op).Contents() == PlainStep(g.Contents(), op)
  {
    match op
    case OpSet(key, value) => SetStep(g, key, value); SetContents(g, key, value);
    case OpDel(key) => DelStep(g, key);
  }

  /** What a call copies is paid for by the deletions it spends, and a call counts at
      most one deletion. */
  lemma StepCost<V>(g: Generations<V>, op: Op<V>)
    requires g.Valid()
    ensures MAX_DELETION * g.CopiedBy(op) + (COPY_THRESHOLD - 1) * g.Step(op).Counted()
      <= (COPY_THRESHOLD - 1) * (g.Counted() + 1)
  {
    match op
    case OpSet(key, value) => SetStep(g, key, value);
    case OpDel(key) => DelStep(g, key);
  }

  /** Over every run the two generations are one ordinary map. */
  lemma {:induction false} RunRefinesMap<V>(ops: seq<Op<V>>)
    ensures Run(ops).Valid()
    ensures Run(ops).Contents() == PlainRun(ops)
  {
    if ops != [] {
      RunRefinesMap(ops[..|ops| - 1]);
      StepRefines(Run(ops[..|ops| - 1]), ops[|ops| - 1]);
    }
  }

  /** Amortised migration cost: a run of n calls copies at most n * 999 / 10000 entries. */
  lemma {:induction false} AmortisedCopies<V>(ops: seq<Op<V>>)
    ensures MAX_DELETION * Copies(ops) + (COPY_THRESHOLD - 1) * Run(ops).Counted()
      <= (COPY_THRESHOLD - 1) * |ops|
  {
    if ops != [] {
      AmortisedCopies(ops[..|ops| - 1]);
      RunRefinesMap(ops[..|ops| - 1]);
      StepCost(Run(ops[..|ops| - 1]), ops[|ops| - 1]);
    }
  }

  /** Entries added to a generation, and counted deletions written off, over a run. */
  function Added<V>(ops: seq<Op<V>>): nat {
    if ops == [] then 0
    else Added(ops[..|ops| - 1]) + Run(ops[..|ops| - 1]).AddedBy(ops[|ops| - 1])
  }

  function Spent<V>(ops: seq<Op<V>>): nat {
    if ops == [] then 0
    else Spent(ops[..|ops| - 1]) + Run(ops[..|ops| - 1]).SpentBy(ops[|ops| - 1])
  }

  lemma CardSet<V>(m: map<uint64, V>, k: uint64, v: V)
    ensures |m[k := v]| == |m| + (if k in m then 0 else 1)
    ensures |m - {k}| == |m| - (if k in m then 1 else 0)
  {
    assert m[k := v].Keys == m.Keys + {k};
    assert (m - {k}).Keys == m.Keys - {k};
  }

  lemma DropBalance<V>(g: Generations<V>, key: uint64)
    ensures g.Drop(key).Size() + g.Drop(key).Counted() == g.Size() + g.Counted()
  {
    if key in g.dirtyOld {
      CardSet(g.dirtyOld, key, g.dirtyOld[key]);
    } else if key in g.dirtyNew {
      CardSet(g.dirtyNew, key, g.dirtyNew[key]);
    }
  }

  lemma SetBalance<V>(g: Generations<V>, key: uint64, value: V)
    ensures var h := g.Set(key, value);
      h.Size() + h.Counted() == g.Size() + g.Counted() + g.AddedBy(OpSet(key, value))
  {
    CardSet(g.dirtyOld, key, value);
    CardSet(g.dirtyNew, key, value);
  }

  lemma MigrateBalance<V>(d: Generations<V>)
    requires d.dirtyOld.Keys !! d.dirtyNew.Keys
    ensures var m := d.PromoteNew().FoldNew();
      && m.Size() == d.Size()
      && m.Counted() + (if d.OldIsSparse() then d.deletionOld else 0)
        + (if d.PromoteNew().NewIsSparse() then d.PromoteNew().deletionNew else 0) == d.Counted()
  {
    UnionCommutes(d.dirtyOld, d.dirtyNew);
    UnionCommutes(d.dirtyNew, d.dirtyOld);
  }

  lemma DelBalance<V>(g: Generations<V>, key: uint64)
    requires g.Valid()
    ensures g.Del(key).Size() + g.Del(key).Counted() + g.DelSpends(key) == g.Size() + g.Counted()
  {
    DropKeeps(g, key);
    DropBalance(g, key);
    MigrateBalance(g.Drop(key));
  }

  lemma EmptySize<V>()
    ensures Empty<V>().Size() == 0
  {
    var none: map<uint64, V> := map[];
    assert |none.Keys| == 0;
  }

  lemma StepBalance<V>(g: Generations<V>, op: Op<V>)
    requires g.Valid()
    ensures g.Step(op).Size() + g.Step(op).Counted() + g.SpentBy(op) == g.Size() + g.Counted() + g.AddedBy(op)
  {
    match op
    case OpSet(key, value) => SetBalance(g, key, value);
    case OpDel(key) => DelBalance(g, key);
  }

  /** Where a Set writes, in plain numbers. */
  lemma SetExactly<V>(g: Generations<V>, key: uint64, value: V)
    requires g.Valid()
    ensures var h := g.Set(key, value);
      if g.deletionOld <= 10000 then h == g.(dirtyOld := g.dirtyOld[key := value])
      else
        && h.dirtyNew == g.dirtyNew[key := value] && h.deletionNew == g.deletionNew
        && h.dirtyOld == g.dirtyOld - {key} && h.deletionOld == g.deletionOld + if key in g.dirtyOld then 1 else 0
  {
    SetStep(g, key, value);
    assert g.deletionOld <= 10000 ==> g.dirtyNew - {key} == g.dirtyNew;
  }

  /** When a Del migrates and what it leaves, in plain numbers: the deletion is counted for
      the generation that had the key; then 10000 deletions from a generation that has
      fewer than 1000 entries left make it move to the other, and its count ends. */
  lemma DelExactly<V>(g: Generations<V>, key: uint64)
    requires g.Valid()
    ensures var h, all := g.Del(key), g.Contents() - {key};
      var old', new' := g.dirtyOld - {key}, g.dirtyNew - {key};
      var oldCount := g.deletionOld + if key in g.dirtyOld then 1 else 0;
      var newCount := g.deletionNew + if key in g.dirtyNew then 1 else 0;
      if oldCount >= 10000 && |old'| < 1000 then h == Generations(all, map[], newCount, 0)
      else if newCount >= 10000 && |new'| < 1000 then h == Generations(all, map[], oldCount, 0)
      else h == Generations(old', new', oldCount, newCount)
  {
    DropExactly(g, key);
    DropContents(g, key);
    MigrateExactly(g.Drop(key));
  }

  lemma DropExactly<V>(g: Generations<V>, key: uint64)
    requires g.Valid()
    ensures g.Drop(key) == Generations(g.dirtyOld - {key}, g.dirtyNew - {key},
                                       g.deletionOld + (if key in g.dirtyOld then 1 else 0),
                                       g.deletionNew + (if key in g.dirtyNew then 1 else 0))
    ensures Dropped(g.Drop(key))
  {
    DropKeeps(g, key);
    Absent(g.dirtyOld, key);
    Absent(g.dirtyNew, key);
  }

  lemma Absent<V>(m: map<uint64, V>, k: uint64)
    ensures k !in m ==> m - {k} == m
  {
  }

  lemma MigrateExactly<V>(d: Generations<V>)
    requires Dropped(d)
    ensures var h := d.PromoteNew().FoldNew();
      if d.deletionOld >= 10000 && |d.dirtyOld| < 1000 then h == Generations(d.Contents(), map[], d.deletionNew, 0)
      else if d.deletionNew >= 10000 && |d.dirtyNew| < 1000 then h == Generations(d.Contents(), map[], d.deletionOld, 0)
      else h == d
  {
    UnionCommutes(d.dirtyOld, d.dirtyNew);
  }

  /** A Del never leaves a sparse old generation behind, unless the new one that took its
      place had as many deletions itself: then it does exactly if the two together are
      sparse. */
  lemma DelRebuilds<V>(g: Generations<V>, key: uint64)
    requires g.Valid()
    ensures var h := g.Del(key);
      var oldCount := g.deletionOld + if key in g.dirtyOld then 1 else 0;
      var newCount := g.deletionNew + if key in g.dirtyNew then 1 else 0;
      h.deletionOld >= 10000 && |h.dirtyOld| < 1000
      <==> oldCount >= 10000 && newCount >= 10000 && |g.Contents() - {key}| < 1000
    ensures g.deletionNew < 9999 ==> g.Del(key).deletionOld < 10000 || |g.Del(key).dirtyOld| >= 1000
  {
    DelExactly(g, key);
    RestSize(g, key);
  }

  lemma RestSize<V>(g: Generations<V>, key: uint64)
    requires g.Valid()
    ensures |g.Contents() - {key}| == |g.dirtyOld - {key}| + |g.dirtyNew - {key}|
  {
    DropContents(g, key);
    DropExactly(g, key);
    UnionCommutes(g.Drop(key).dirtyOld, g.Drop(key).dirtyNew);
  }

  /** The counters count exactly the entries that left a generation: whatever was added
      is still there, or is counted, or its count was spent by a migration. */
  lemma {:induction false} DeletionsBalance<V>(ops: seq<Op<V>>)
    ensures Added(ops) == Run(ops).Size() + Run(ops).Counted() + Spent(ops)
  {
    if ops != [] {
      DeletionsBalance(ops[..|ops| - 1]);
      RunRefinesMap(ops[..|ops| - 1]);
      var g, op := Run(ops[..|ops| - 1]), ops[|ops| - 1];
      StepBalance(g, op);
      var size, counted := g.Step(op).Size(), g.Step(op).Counted();
      assert Run(ops).Size() == size && Run(ops).Counted() == counted;
      assert Added(ops) == Added(ops[..|ops| - 1]) + g.AddedBy(op);
      assert Spent(ops) == Spent(ops[..|ops| - 1]) + g.SpentBy(op);
      assert Added(ops) == size + counted + Spent(ops);
    } else {
      EmptySize<V>();
      assert Added(ops) == 0 && Spent(ops) == 0;
      assert Run(ops).Size() == 0 && Run(ops).Counted() == 0;
    }
  }

  class SafeMap<V> {
    var deletionOld: nat
    var deletionNew: nat
    var dirtyOld: map<uint64, V>
    var dirtyNew: map<uint64, V>
    ghost var copied: nat  // entries copied by migrations so far

    function State(): Generations<V>
      reads this
    {
      Generations(dirtyOld, dirtyNew, deletionOld, deletionNew)
    }

    constructor ()
      ensures State() == Empty() && copied == 0
    {
      deletionOld, deletionNew, dirtyOld, dirtyNew, copied := 0, 0, map[], map[], 0;
    }

    method Set(key: uint64, value: V)
      modifies this
      ensures State() == old(State()).Set(key, value) && copied == old(copied)
    {
      if deletionOld <= MAX_DELETION {
        if key in dirtyNew {
          dirtyNew := dirtyNew - {key};
          deletionNew := deletionNew + 1;
        }
        assert dirtyNew == old(dirtyNew) - {key};
        dirtyOld := dirtyOld[key := value];
      } else {
        if key in dirtyOld {
          dirtyOld := dirtyOld - {key};
          deletionOld := deletionOld + 1;
        }
        assert dirtyOld == old(dirtyOld) - {key};
        dirtyNew := dirtyNew[key := value];
      }
    }

    method Del(key: uint64)
      modifies this
      ensures State() == old(State()).Del(key)
      ensures copied == old(copied) + old(State()).DelCopies(key)
    {
      if key in dirtyOld {
        dirtyOld := dirtyOld - {key};
        deletionOld := deletionOld + 1;
      } else if key in dirtyNew {
        dirtyNew := dirtyNew - {key};
        deletionNew := deletionNew + 1;
      }
      assert State() == old(State()).Drop(key);
      Promote();
      Fold();
    }

    /** The first migration of Del: a sparse old generation moves into the new one. */
    method Promote()
      modifies this
      ensures State() == old(State()).PromoteNew()
      ensures copied == old(copied) + if old(State()).OldIsSparse() then |old(dirtyOld)| else 0
    {
      if deletionOld >= MAX_DELETION && |dirtyOld| < COPY_THRESHOLD {
        dirtyNew := Copy(dirtyOld, dirtyNew);
        dirtyOld := dirtyNew;
        deletionOld := deletionNew;
        dirtyNew := map[];
        deletionNew := 0;
      }
    }

    /** The second migration of Del: a sparse new generation moves into the old one. */
    method Fold()
      modifies this
      ensures State() == old(State()).FoldNew()
      ensures copied == old(copied) + if old(State()).NewIsSparse() then |old(dirtyNew)| else 0
    {
      if deletionNew >= MAX_DELETION && |dirtyNew| < COPY_THRESHOLD {
        dirtyOld := Copy(dirtyNew, dirtyOld);
        dirtyNew := map[];
        deletionNew := 0;
      }
    }

    /** The copy loop of both migrations: entries in any order, one at a time. */
    method Copy(from: map<uint64, V>, into: map<uint64, V>) returns (result: map<uint64, V>)
      modifies this`copied
      ensures result == into + from && copied == old(copied) + |from|
    {
      result := into;
      var todo := from.Keys;
      CopyEnds(from, into);
      while todo != {}
        invariant todo <= from.Keys
        invariant HalfCopied(result, from, into, todo)
        invariant copied + |todo| == old(copied) + |from|
      {
        var k :| k in todo;
        CopyStep(result, from, into, todo, k);
        result := result[k := from[k]];
        todo := todo - {k};
        copied := copied + 1;
      }
    }

    method Get(key: uint64) returns (value: Option<V>)
      ensures value.Some? <==> key in State().Contents()
      ensures State().Valid() && value.Some? ==> value.value == State().Contents()[key]
    {
      if key in dirtyOld {
        return Some(dirtyOld[key]);
      }
      if key in dirtyNew {
        return Some(dirtyNew[key]);
      }
      return None;
    }

    method Size() returns (size: nat)
      ensures State().Valid() ==> size == |State().Contents()|
    {
      assert State().Contents().Keys == dirtyOld.Keys + dirtyNew.Keys;
      size := |dirtyOld| + |dirtyNew|;
    }

    /** Calls f on the bindings, each at most once, until it says false. */
    method Range(f: (uint64, V) -> bool) returns (calls: seq<(uint64, V)>)
      requires State().Valid()
      ensures Visits(calls, State().Contents(), f)
      ensures (forall c | c in calls :: f(c.0, c.1)) ==> Keys(calls) == State().Contents().Keys
    {
      calls := [];
      var todo := dirtyOld.Keys;
      while todo != {}
        invariant todo <= dirtyOld.Keys && Keys(calls) == dirtyOld.Keys - todo
        invariant Visits(calls, State().Contents(), f) && forall c | c in calls :: f(c.0, c.1)
      {
        var k :| k in todo;
        todo := todo - {k};
        Extend(calls, k, dirtyOld[k], State().Contents(), f);
        calls := calls + [(k, dirtyOld[k])];
        if !f(k, dirtyOld[k]) {
          return;
        }
      }
      todo := dirtyNew.Keys;
      while todo != {}
        invariant todo <= dirtyNew.Keys && Keys(calls) == dirtyOld.Keys + (dirtyNew.Keys - todo)
        invariant Visits(calls, State().Contents(), f) && forall c | c in calls :: f(c.0, c.1)
      {
        var k :| k in todo;
        todo := todo - {k};
        Extend(calls, k, dirtyNew[k], State().Contents(), f);
        calls := calls + [(k, dirtyNew[k])];
        if !f(k, dirtyNew[k]) {
          return;
        }
      }
    }
  }

  function Keys<V>(calls: seq<(uint64, V)>): set<uint64> {
    set i | 0 <= i < |calls| :: calls[i].0
  }

  /** The calls are distinct bindings of m, and all but the last said to go on. */
  ghost predicate Visits<V>(calls: seq<(uint64, V)>, m: map<uint64, V>, f: (uint64, V) -> bool) {
    && (forall i | 0 <= i < |calls| :: calls[i].0 in m && m[calls[i].0] == calls[i].1)
    && (forall i, j | 0 <= i < j < |calls| :: calls[i].0 != calls[j].0)
    && (forall i | 0 <= i < |calls| - 1 :: f(calls[i].0, calls[i].1))
  }

  lemma Extend<V>(calls: seq<(uint64, V)>, k: uint64, v: V, m: map<uint64, V>, f: (uint64, V) -> bool)
    requires Visits(calls, m, f) && forall c | c in calls :: f(c.0, c.1)
    requires k in m && m[k] == v && k !in Keys(calls)
    ensures Visits(calls + [(k, v)], m, f)
    ensures Keys(calls + [(k, v)]) == Keys(calls) + {k}
  {
    var more := calls + [(k, v)];
    forall i | 0 <= i < |calls| ensures more[i] == calls[i] && calls[i] in calls {
    }
    assert more[|calls|] == (k, v);
    forall x ensures x in Keys(more) <==> x in Keys(calls) + {k} {
      if x in Keys(calls) {
        var i :| 0 <= i < |calls| && calls[i].0 == x;
        assert more[i].0 == x;
      }
    }
  }
}
