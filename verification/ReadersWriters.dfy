/**
 The semaphores of the hash table: any number of threads run lookups, inserts and removes, one semaphore
 or counter access at a time.  Lookups share the table, inserts and removes have it to themselves.
 */
module ReadersWriters {
  import opened HashTable

  /**
   Where a thread stands.  The first line is LookupHashTable up to its traversal, the second the
   traversal, the third its end; the last line is InsertHashTable and RemoveFromHashTable.  A traversal
   starts from the table it finds and ends later: `seen` is the table it started from.
   */
  datatype Pc<V> =
    | Idle
    | Enters | Counts | TestsFirst | WaitsWrt | Releases
    | Reads | Found(seen: map<int, V>)
    | Leaves | Discounts | TestsLast | PostsWrt | PostsMutex
    | Claims | Writes | Wrote(seen: map<int, V>) | Returns
  {
    predicate HoldsMutex() {
      Counts? || TestsFirst? || WaitsWrt? || Releases? || Discounts? || TestsLast? || PostsWrt? || PostsMutex?
    }

    /** A reader that has counted itself in and not yet out. */
    predicate Registered() {
      TestsFirst? || WaitsWrt? || Releases? || Reads? || Found? || Leaves? || Discounts?
    }

    predicate Reading() {
      Reads? || Found?
    }

    predicate Writing() {
      Writes? || Wrote? || Returns?
    }
  }

  datatype Logged<V> = Logged(from: nat, op: Op<V>, reply: Reply<V>)

  /** `todo` holds what each thread has still to look up or change, `log` what has been answered so far. */
  datatype State<V> = State(
    todo: seq<seq<Op<V>>>,
    pcs: seq<Pc<V>>,
    wrt: nat,
    mutex: nat,
    readcount: int,
    table: map<int, V>,
    log: seq<Logged<V>>)

  ghost predicate Init<V>(plan: seq<seq<Op<V>>>, s: State<V>) {
    && s.todo == plan && |s.pcs| == |plan| && (forall i :: 0 <= i < |plan| ==> s.pcs[i].Idle?)
    && s.wrt == 1 && s.mutex == 1 && s.readcount == 0 && s.table == map[] && s.log == []
  }

  ghost predicate Enabled<V>(s: State<V>, i: nat) {
    && i < |s.pcs| == |s.todo|
    && match s.pcs[i]
       case Idle => s.todo[i] != []
       case Found(_) => s.todo[i] != []
       case Wrote(_) => s.todo[i] != []
       case Enters => s.mutex > 0
       case Leaves => s.mutex > 0
       case WaitsWrt => s.wrt > 0
       case Claims => s.wrt > 0
       case _ => true
  }

  /** Thread i answers its operation from the table it saw. */
  ghost function Answer<V>(s: State<V>, i: nat, seen: map<int, V>): State<V>
    requires i < |s.todo| && s.todo[i] != []
  {
    var op := s.todo[i][0];
    s.(log := s.log + [Logged(i, op, MapReply(seen, op))], todo := s.todo[i := s.todo[i][1..]])
  }

  ghost function PcAfter<V>(s: State<V>, i: nat): Pc<V>
    requires Enabled(s, i)
  {
    match s.pcs[i]
    case Idle => if s.todo[i][0].LookupOp? then Enters else Claims
    case Enters => Counts
    case Counts => TestsFirst
    case TestsFirst => if s.readcount == 1 then WaitsWrt else Releases
    case WaitsWrt => Releases
    case Releases => Reads
    case Reads => Found(s.table)
    case Found(_) => Leaves
    case Leaves => Discounts
    case Discounts => TestsLast
    case TestsLast => if s.readcount == 0 then PostsWrt else PostsMutex
    case PostsWrt => PostsMutex
    case PostsMutex => Idle
    case Claims => Writes
    case Writes => Wrote(s.table)
    case Wrote(_) => Returns
    case Returns => Idle
  }

  ghost function Effect<V>(s: State<V>, i: nat): State<V>
    requires Enabled(s, i)
  {
    match s.pcs[i]
    case Enters => s.(mutex := s.mutex - 1)
    case Counts => s.(readcount := s.readcount + 1)
    case WaitsWrt => s.(wrt := s.wrt - 1)
    case Releases => s.(mutex := s.mutex + 1)
    case Found(seen) => Answer(s, i, seen)
    case Leaves => s.(mutex := s.mutex - 1)
    case Discounts => s.(readcount := s.readcount - 1)
    case PostsWrt => s.(wrt := s.wrt + 1)
    case PostsMutex => s.(mutex := s.mutex + 1)
    case Claims => s.(wrt := s.wrt - 1)
    case Wrote(seen) => Answer(s, i, seen).(table := MapStep(seen, s.todo[i][0]))
    case Returns => s.(wrt := s.wrt + 1)
    case _ => s
  }

  ghost function Next<V>(s: State<V>, i: nat): State<V>
    requires Enabled(s, i)
  {
    Effect(s, i).(pcs := s.pcs[i := PcAfter(s, i)])
  }

  /** Any interleaving: `who` names the thread that takes each step. */
  ghost predicate IsRun<V>(plan: seq<seq<Op<V>>>, run: seq<State<V>>, who: seq<nat>) {
    && |run| == |who| + 1
    && Init(plan, run[0])
    && forall k :: 0 <= k < |who| ==> Enabled(run[k], who[k]) && run[k + 1] == Next(run[k], who[k])
  }

  /** Who holds the table: no one, the readers as a group, or one writer. */
  datatype Owner = Nobody | Readers | Writer(i: nat)

  const FREE: int := -1

  ghost function Count<V>(pcs: seq<Pc<V>>, k: nat): nat
    requires k <= |pcs|
  {
    if k == 0 then 0 else Count(pcs, k - 1) + if pcs[k - 1].Registered() then 1 else 0
  }

  /** Thread `holder` holds the mutex. */
  ghost predicate MutexOk<V>(s: State<V>, holder: int) {
    && FREE <= holder < |s.pcs|
    && s.mutex == (if holder == FREE then 1 else 0)
    && forall i :: 0 <= i < |s.pcs| ==> (s.pcs[i].HoldsMutex() <==> i == holder)
  }

  /** The readers hold the table from the first one's wait to the last one's post. */
  ghost predicate GroupOk<V>(s: State<V>, holder: int, owner: Owner) {
    if 0 <= holder < |s.pcs| && (s.pcs[holder].TestsFirst? || s.pcs[holder].WaitsWrt?) then
      && (owner.Readers? <==> s.readcount > 1)
      && (s.pcs[holder].WaitsWrt? ==> s.readcount == 1)
    else if 0 <= holder < |s.pcs| && (s.pcs[holder].TestsLast? || s.pcs[holder].PostsWrt?) then
      && owner.Readers?
      && (s.pcs[holder].PostsWrt? ==> s.readcount == 0)
    else
      owner.Readers? <==> s.readcount > 0
  }

  ghost predicate WriterOk<V>(s: State<V>, owner: Owner) {
    && s.wrt == (if owner.Nobody? then 1 else 0)
    && (owner.Writer? ==> owner.i < |s.pcs|)
    && forall i :: 0 <= i < |s.pcs| ==> (s.pcs[i].Writing() <==> owner == Writer(i))
  }

  ghost predicate CountOk<V>(s: State<V>) {
    s.readcount == Count(s.pcs, |s.pcs|)
  }

  /** A traversal still sees the table as it is. */
  ghost predicate SeenOk<V>(s: State<V>) {
    forall i :: 0 <= i < |s.pcs| && (s.pcs[i].Found? || s.pcs[i].Wrote?) ==> s.pcs[i].seen == s.table
  }

  ghost function Ops<V>(log: seq<Logged<V>>): seq<Op<V>> {
    seq(|log|, k requires 0 <= k < |log| => log[k].op)
  }

  /** The log is what one thread alone would have seen, doing the same operations one after the other. */
  ghost predicate Sequential<V>(log: seq<Logged<V>>) {
    log == [] ||
    var before, last := log[..|log| - 1], log[|log| - 1];
    Sequential(before) && last.reply == MapReply(MapAfter(Ops(before)), last.op)
  }

  ghost predicate LogOk<V>(s: State<V>) {
    s.table == MapAfter(Ops(s.log)) && Sequential(s.log)
  }

  ghost function By<V>(log: seq<Logged<V>>, i: nat): seq<Op<V>> {
    if log == [] then []
    else
      var last := log[|log| - 1];
      By(log[..|log| - 1], i) + if last.from == i then [last.op] else []
  }

  ghost predicate Unanswered<V>(pc: Pc<V>) {
    pc.Enters? || pc.Counts? || pc.TestsFirst? || pc.WaitsWrt? || pc.Releases? || pc.Reads? || pc.Found?
    || pc.Claims? || pc.Writes? || pc.Wrote?
  }

  /** A thread in the middle of an operation has one to do, of the right kind. */
  ghost predicate Suits<V>(pc: Pc<V>, todo: seq<Op<V>>) {
    Unanswered(pc) ==> todo != [] && (todo[0].LookupOp? <==> !(pc.Claims? || pc.Writing()))
  }

  /** Thread j's operations are those answered and those still to come. */
  ghost predicate PlaceOk<V>(plan: seq<seq<Op<V>>>, s: State<V>, j: nat)
    requires |s.todo| == |plan| && j < |plan|
  {
    By(s.log, j) + s.todo[j] == plan[j]
  }

  ghost predicate OrderOk<V>(plan: seq<seq<Op<V>>>, s: State<V>) {
    && |s.pcs| == |s.todo| == |plan|
    && (forall j :: 0 <= j < |plan| ==> Suits(s.pcs[j], s.todo[j]))
    && (forall j :: 0 <= j < |plan| ==> PlaceOk(plan, s, j))
  }

  ghost predicate Inv<V>(plan: seq<seq<Op<V>>>, s: State<V>, holder: int, owner: Owner) {
    && MutexOk(s, holder) && CountOk(s) && GroupOk(s, holder, owner) && WriterOk(s, owner)
    && SeenOk(s) && LogOk(s) && OrderOk(plan, s)
  }

  ghost function HolderAfter<V>(s: State<V>, i: nat, holder: int): int
    requires Enabled(s, i)
  {
    if s.pcs[i].Enters? || s.pcs[i].Leaves? then i
    else if s.pcs[i].Releases? || s.pcs[i].PostsMutex? then FREE
    else holder
  }

  ghost function OwnerAfter<V>(s: State<V>, i: nat, owner: Owner): Owner
    requires Enabled(s, i)
  {
    if s.pcs[i].WaitsWrt? then Readers
    else if s.pcs[i].Claims? then Writer(i)
    else if s.pcs[i].PostsWrt? || s.pcs[i].Returns? then Nobody
    else owner
  }

  lemma {:induction false} CountUpdate<V>(pcs: seq<Pc<V>>, i: nat, pc: Pc<V>, k: nat)
    requires i < |pcs| && k <= |pcs|
    ensures Count(pcs[i := pc], k) == Count(pcs, k)
            + (if i < k && pc.Registered() then 1 else 0) - (if i < k && pcs[i].Registered() then 1 else 0)
  {
    if k > 0 {
      CountUpdate(pcs, i, pc, k - 1);
    }
  }

  lemma {:induction false} CountAtLeast<V>(pcs: seq<Pc<V>>, i: nat, j: nat, k: nat)
    requires i < |pcs| && j < |pcs| && k <= |pcs|
    requires pcs[i].Registered() && pcs[j].Registered()
    ensures Count(pcs, k) >= (if i < k then 1 else 0) + (if j < k && i != j then 1 else 0)
  {
    if k > 0 {
      CountAtLeast(pcs, i, j, k - 1);
    }
  }

  lemma {:induction false} SomeoneCounted<V>(pcs: seq<Pc<V>>, k: nat) returns (i: nat)
    requires k <= |pcs| && Count(pcs, k) > 0
    ensures i < k && pcs[i].Registered()
  {
    if pcs[k - 1].Registered() {
      i := k - 1;
    } else {
      i := SomeoneCounted(pcs, k - 1);
    }
  }

  /** The readers own the table while any of them traverses it. */
  lemma ReadingMeansReaders<V>(plan: seq<seq<Op<V>>>, s: State<V>, holder: int, owner: Owner, i: nat)
    requires Inv(plan, s, holder, owner) && i < |s.pcs| && s.pcs[i].Registered() && i != holder
    ensures owner.Readers?
  {
    var j := if holder != FREE && s.pcs[holder].Registered() then holder else i;
    CountAtLeast(s.pcs, i, j, |s.pcs|);
  }

  lemma StepKeepsMutex<V>(plan: seq<seq<Op<V>>>, s: State<V>, i: nat, holder: int, owner: Owner)
    requires Inv(plan, s, holder, owner) && Enabled(s, i)
    ensures MutexOk(Next(s, i), HolderAfter(s, i, holder))
  {
  }

  lemma StepKeepsCount<V>(plan: seq<seq<Op<V>>>, s: State<V>, i: nat, holder: int, owner: Owner)
    requires Inv(plan, s, holder, owner) && Enabled(s, i)
    ensures CountOk(Next(s, i))
  {
    CountUpdate(s.pcs, i, PcAfter(s, i), |s.pcs|);
  }

  lemma StepKeepsGroup<V>(plan: seq<seq<Op<V>>>, s: State<V>, i: nat, holder: int, owner: Owner)
    requires Inv(plan, s, holder, owner) && Enabled(s, i)
    ensures GroupOk(Next(s, i), HolderAfter(s, i, holder), OwnerAfter(s, i, owner))
  {
    if s.pcs[i].Registered() {
      CountAtLeast(s.pcs, i, i, |s.pcs|);
    }
    assert s.pcs[i].HoldsMutex() <==> i == holder;
    assert s.pcs[i].Writing() <==> owner == Writer(i);
  }

  lemma StepKeepsWriter<V>(plan: seq<seq<Op<V>>>, s: State<V>, i: nat, holder: int, owner: Owner)
    requires Inv(plan, s, holder, owner) && Enabled(s, i)
    ensures WriterOk(Next(s, i), OwnerAfter(s, i, owner))
  {
    assert s.pcs[i].HoldsMutex() <==> i == holder;
    assert s.pcs[i].Writing() <==> owner == Writer(i);
  }

  lemma StepKeepsSeen<V>(plan: seq<seq<Op<V>>>, s: State<V>, i: nat, holder: int, owner: Owner)
    requires Inv(plan, s, holder, owner) && Enabled(s, i)
    ensures SeenOk(Next(s, i))
  {
    var r := Next(s, i);
    forall j | 0 <= j < |r.pcs| && (r.pcs[j].Found? || r.pcs[j].Wrote?)
      ensures r.pcs[j].seen == r.table
    {
      if s.pcs[i].Wrote? && s.pcs[j].Found? {
        ReadingMeansReaders(plan, s, holder, owner, j);
      }
    }
  }

  lemma LogGrows<V>(log: seq<Logged<V>>, from: nat, op: Op<V>, m: map<int, V>)
    requires Sequential(log) && m == MapAfter(Ops(log))
    ensures Sequential(log + [Logged(from, op, MapReply(m, op))])
    ensures MapAfter(Ops(log + [Logged(from, op, MapReply(m, op))])) == MapStep(m, op)
  {
    var grown := log + [Logged(from, op, MapReply(m, op))];
    assert grown[..|grown| - 1] == log;
    assert Ops(grown)[..|log|] == Ops(log);
  }

  lemma StepKeepsLog<V>(plan: seq<seq<Op<V>>>, s: State<V>, i: nat, holder: int, owner: Owner)
    requires Inv(plan, s, holder, owner) && Enabled(s, i)
    ensures LogOk(Next(s, i))
  {
    if s.pcs[i].Found? || s.pcs[i].Wrote? {
      var op := s.todo[i][0];
      assert s.pcs[i].seen == s.table;
      LogGrows(s.log, i, op, s.table);
      assert Suits(s.pcs[i], s.todo[i]);
      assert s.pcs[i].Found? ==> MapStep(s.table, op) == s.table;
    }
  }

  lemma ByGrows<V>(log: seq<Logged<V>>, e: Logged<V>, j: nat)
    ensures By(log + [e], j) == By(log, j) + if e.from == j then [e.op] else []
  {
    assert (log + [e])[..|log|] == log;
  }

  lemma AnswerKeepsPlace<V>(plan: seq<seq<Op<V>>>, s: State<V>, i: nat, seen: map<int, V>, j: nat)
    requires |s.todo| == |plan| && i < |plan| && s.todo[i] != [] && j < |plan| && PlaceOk(plan, s, j)
    ensures PlaceOk(plan, Answer(s, i, seen), j)
  {
    var op := s.todo[i][0];
    ByGrows(s.log, Logged(i, op, MapReply(seen, op)), j);
    assert s.todo[i] == [op] + s.todo[i][1..];
  }

  lemma SamePlace<V>(plan: seq<seq<Op<V>>>, s: State<V>, r: State<V>, j: nat)
    requires |s.todo| == |plan| && j < |plan| && PlaceOk(plan, s, j)
    requires r.todo == s.todo && r.log == s.log
    ensures PlaceOk(plan, r, j)
  {
  }

  lemma StepKeepsPlace<V>(plan: seq<seq<Op<V>>>, s: State<V>, i: nat, j: nat)
    requires |s.todo| == |plan| && Enabled(s, i) && j < |plan| && PlaceOk(plan, s, j)
    ensures PlaceOk(plan, Next(s, i), j)
  {
    if s.pcs[i].Found? || s.pcs[i].Wrote? {
      AnswerKeepsPlace(plan, s, i, s.pcs[i].seen, j);
      SamePlace(plan, Answer(s, i, s.pcs[i].seen), Next(s, i), j);
    } else {
      SamePlace(plan, s, Next(s, i), j);
    }
  }

  lemma StepKeepsOrder<V>(plan: seq<seq<Op<V>>>, s: State<V>, i: nat, holder: int, owner: Owner)
    requires Inv(plan, s, holder, owner) && Enabled(s, i)
    ensures OrderOk(plan, Next(s, i))
  {
    forall j | 0 <= j < |plan|
      ensures PlaceOk(plan, Next(s, i), j)
    {
      StepKeepsPlace(plan, s, i, j);
    }
    assert Suits(s.pcs[i], s.todo[i]);
  }

  lemma {:induction false} RunKeepsInv<V>(plan: seq<seq<Op<V>>>, run: seq<State<V>>, who: seq<nat>, k: nat)
    returns (holder: int, owner: Owner)
    requires IsRun(plan, run, who) && k < |run|
    ensures Inv(plan, run[k], holder, owner)
  {
    if k == 0 {
      NobodyCounted(run[0].pcs, |plan|);
      holder, owner := FREE, Nobody;
    } else {
      var s, i := run[k - 1], who[k - 1];
      var h, w := RunKeepsInv(plan, run, who, k - 1);
      StepKeepsMutex(plan, s, i, h, w);
      StepKeepsCount(plan, s, i, h, w);
      StepKeepsGroup(plan, s, i, h, w);
      StepKeepsWriter(plan, s, i, h, w);
      StepKeepsSeen(plan, s, i, h, w);
      StepKeepsLog(plan, s, i, h, w);
      StepKeepsOrder(plan, s, i, h, w);
      holder, owner := HolderAfter(s, i, h), OwnerAfter(s, i, w);
    }
  }

  lemma {:induction false} NobodyCounted<V>(pcs: seq<Pc<V>>, k: nat)
    requires k <= |pcs| && forall i :: 0 <= i < |pcs| ==> pcs[i].Idle?
    ensures Count(pcs, k) == 0
  {
    if k > 0 {
      NobodyCounted(pcs, k - 1);
    }
  }

  /**
   In every state of every interleaving a writer excludes every other writer and every reader, and
   readcount is the number of readers that have counted themselves in.
   */
  lemma WritersExclude<V>(plan: seq<seq<Op<V>>>, run: seq<State<V>>, who: seq<nat>, k: nat, i: nat, j: nat)
    requires IsRun(plan, run, who) && k < |run|
    requires i < |run[k].pcs| && j < |run[k].pcs| && run[k].pcs[i].Writing() && i != j
    ensures !run[k].pcs[j].Writing() && !run[k].pcs[j].Reading()
  {
    var holder, owner := RunKeepsInv(plan, run, who, k);
    if run[k].pcs[j].Reading() {
      ReadingMeansReaders(plan, run[k], holder, owner, j);
    }
  }

  lemma ReadcountCounts<V>(plan: seq<seq<Op<V>>>, run: seq<State<V>>, who: seq<nat>, k: nat)
    requires IsRun(plan, run, who) && k < |run|
    ensures run[k].readcount == Count(run[k].pcs, |run[k].pcs|)
  {
    var holder, owner := RunKeepsInv(plan, run, who, k);
  }

  /**
   Every interleaving answers as some sequential order of the same operations, in which each thread's own
   operations keep their order, although a traversal and the change made after it are separate steps.
   */
  lemma Linearizable<V>(plan: seq<seq<Op<V>>>, run: seq<State<V>>, who: seq<nat>, k: nat)
    requires IsRun(plan, run, who) && k < |run|
    ensures Sequential(run[k].log) && run[k].table == MapAfter(Ops(run[k].log))
    ensures |run[k].todo| == |plan|
    ensures forall i :: 0 <= i < |plan| ==> By(run[k].log, i) + run[k].todo[i] == plan[i]
  {
    var holder, owner := RunKeepsInv(plan, run, who, k);
    forall i | 0 <= i < |plan|
      ensures By(run[k].log, i) + run[k].todo[i] == plan[i]
    {
      assert PlaceOk(plan, run[k], i);
    }
  }

  lemma {:induction false} LogOnlyGrows<V>(plan: seq<seq<Op<V>>>, run: seq<State<V>>, who: seq<nat>, j: nat, k: nat)
    requires IsRun(plan, run, who) && j <= k < |run|
    ensures run[j].log <= run[k].log
    decreases k
  {
    if j < k {
      LogOnlyGrows(plan, run, who, j, k - 1);
    }
  }

  lemma {:induction false} ByMonotone<V>(log: seq<Logged<V>>, longer: seq<Logged<V>>, i: nat)
    requires log <= longer
    ensures By(log, i) <= By(longer, i)
    decreases |longer|
  {
    if log == longer {
    } else {
      var n := |longer| - 1;
      assert log <= longer[..n];
      ByMonotone(log, longer[..n], i);
    }
  }

  /** Where in the log operation a of thread i stands. */
  ghost function Position<V>(log: seq<Logged<V>>, i: nat, a: nat): (pos: nat)
    requires a < |By(log, i)|
    ensures pos < |log| && log[pos].from == i && |By(log[..pos], i)| == a && log[pos].op == By(log, i)[a]
  {
    var n := |log| - 1;
    if a < |By(log[..n], i)| then
      var pos := Position(log[..n], i, a);
      assert log[..n][..pos] == log[..pos];
      pos
    else n
  }

  /** An operation already in a log stands inside it in every longer one, any other behind it. */
  lemma PositionSplits<V>(log: seq<Logged<V>>, longer: seq<Logged<V>>, i: nat, a: nat)
    requires log <= longer && a < |By(longer, i)|
    ensures a < |By(log, i)| <==> Position(longer, i, a) < |log|
  {
    var pos := Position(longer, i, a);
    if pos < |log| {
      assert log[..pos] == longer[..pos] && longer[..pos + 1][..pos] == longer[..pos];
      ByMonotone(longer[..pos + 1], log, i);
    } else {
      ByMonotone(log, longer[..pos], i);
    }
  }

  /** At step j thread i takes up its operation a. */
  ghost predicate Begins<V>(run: seq<State<V>>, who: seq<nat>, j: nat, i: nat, a: nat) {
    && j < |who| && j < |run| && who[j] == i < |run[j].pcs| && run[j].pcs[i].Idle?
    && |By(run[j].log, i)| == a
  }

  /** At step j thread i returns from its operation a. */
  ghost predicate Ends<V>(run: seq<State<V>>, who: seq<nat>, j: nat, i: nat, a: nat) {
    && j < |who| && j < |run| && who[j] == i < |run[j].pcs| && (run[j].pcs[i].PostsMutex? || run[j].pcs[i].Returns?)
    && |By(run[j].log, i)| == a + 1
  }

  /** An operation that returns before another begins precedes it in the sequential order. */
  lemma RealTimeOrder<V>(plan: seq<seq<Op<V>>>, run: seq<State<V>>, who: seq<nat>, k: nat,
                         j: nat, i: nat, a: nat, l: nat, m: nat, b: nat)
    requires IsRun(plan, run, who) && j < l <= k < |run|
    requires Ends(run, who, j, i, a) && Begins(run, who, l, m, b)
    requires b < |By(run[k].log, m)|
    ensures a < |By(run[k].log, i)|
    ensures Position(run[k].log, i, a) < Position(run[k].log, m, b)
  {
    LogOnlyGrows(plan, run, who, j, k);
    LogOnlyGrows(plan, run, who, j, l);
    LogOnlyGrows(plan, run, who, l, k);
    ByMonotone(run[j].log, run[k].log, i);
    PositionSplits(run[j].log, run[k].log, i, a);
    PositionSplits(run[l].log, run[k].log, m, b);
  }

  /** A thread that returns from its operation a has it answered: the first a + 1 of its plan are in the log. */
  lemma AnsweredOnReturn<V>(plan: seq<seq<Op<V>>>, run: seq<State<V>>, who: seq<nat>, j: nat, i: nat, a: nat)
    requires IsRun(plan, run, who) && j < |run| && i < |plan|
    requires Ends(run, who, j, i, a) || Begins(run, who, j, i, a)
    ensures a < |plan[i]|
    ensures Begins(run, who, j, i, a) ==> run[j].todo != [] && i < |run[j].todo| && run[j].todo[i] == plan[i][a..]
    ensures Ends(run, who, j, i, a) ==> By(run[j].log, i) == plan[i][..a + 1]
  {
    var holder, owner := RunKeepsInv(plan, run, who, j);
    assert PlaceOk(plan, run[j], i);
    assert j < |who| ==> Enabled(run[j], who[j]);
  }

  ghost predicate Finished<V>(s: State<V>) {
    forall i :: 0 <= i < |s.pcs| ==> s.pcs[i].Idle? && i < |s.todo| && s.todo[i] == []
  }

  lemma SomeoneCanStep<V>(plan: seq<seq<Op<V>>>, s: State<V>, holder: int, owner: Owner, i: nat) returns (mover: nat)
    requires Inv(plan, s, holder, owner)
    requires i < |s.pcs| && !(s.pcs[i].Idle? && s.todo[i] == [])
    ensures Enabled(s, mover)
  {
    if owner.Writer? {
      mover := owner.i;
      assert s.pcs[mover].Writing();
    } else if holder != FREE {
      mover := holder;
      assert s.pcs[mover].HoldsMutex();
    } else if owner.Readers? {
      mover := SomeoneCounted(s.pcs, |s.pcs|);
    } else {
      mover := i;
    }
    assert Suits(s.pcs[mover], s.todo[mover]);
  }

  /** No deadlock: some thread can always take a step, unless all are idle with nothing left to do. */
  lemma NoDeadlock<V>(plan: seq<seq<Op<V>>>, run: seq<State<V>>, who: seq<nat>, k: nat)
    requires IsRun(plan, run, who) && k < |run|
    ensures (exists i: nat :: Enabled(run[k], i)) <==> !Finished(run[k])
  {
    var s := run[k];
    var holder, owner := RunKeepsInv(plan, run, who, k);
    if !Finished(s) {
      var i :| 0 <= i < |s.pcs| && !(s.pcs[i].Idle? && s.todo[i] == []);
      var mover := SomeoneCanStep(plan, s, holder, owner, i);
    }
  }

  /** The steps thread i may still take, over-estimated: twenty for each operation still to be answered. */
  ghost function Effort<V>(pc: Pc<V>, todo: seq<Op<V>>): int {
    20 * |todo| +
    match pc
    case Idle => 0
    case Enters => -1
    case Counts => -2
    case TestsFirst => -3
    case WaitsWrt => -4
    case Releases => -5
    case Reads => -6
    case Found(_) => -7
    case Leaves => 5
    case Discounts => 4
    case TestsLast => 3
    case PostsWrt => 2
    case PostsMutex => 1
    case Claims => -1
    case Writes => -2
    case Wrote(_) => -3
    case Returns => 1
  }

  ghost function Work<V>(s: State<V>, k: nat): int
    requires k <= |s.pcs| == |s.todo|
  {
    if k == 0 then 0 else Work(s, k - 1) + Effort(s.pcs[k - 1], s.todo[k - 1])
  }

  lemma {:induction false} WorkDrops<V>(s: State<V>, i: nat, k: nat)
    requires Enabled(s, i) && k <= |s.pcs|
    ensures i < k ==> Work(Next(s, i), k) < Work(s, k)
    ensures k <= i ==> Work(Next(s, i), k) == Work(s, k)
  {
    if k > 0 {
      WorkDrops(s, i, k - 1);
    }
  }

  lemma {:induction false} WorkIsNat<V>(s: State<V>, k: nat)
    requires k <= |s.pcs| == |s.todo| && forall j :: 0 <= j < |s.pcs| ==> Suits(s.pcs[j], s.todo[j])
    ensures Work(s, k) >= 0
  {
    if k > 0 {
      WorkIsNat(s, k - 1);
      assert Suits(s.pcs[k - 1], s.todo[k - 1]);
    }
  }

  lemma {:induction false} RunDropsWork<V>(plan: seq<seq<Op<V>>>, run: seq<State<V>>, who: seq<nat>, k: nat)
    requires IsRun(plan, run, who) && k < |run|
    ensures |run[k].pcs| == |run[k].todo| && k + Work(run[k], |run[k].pcs|) <= Work(run[0], |plan|)
  {
    if k > 0 {
      RunDropsWork(plan, run, who, k - 1);
      WorkDrops(run[k - 1], who[k - 1], |run[k - 1].pcs|);
    }
  }

  /** No livelock either: no interleaving is longer than the work there was at the start. */
  lemma RunIsBounded<V>(plan: seq<seq<Op<V>>>, run: seq<State<V>>, who: seq<nat>)
    requires IsRun(plan, run, who)
    ensures |who| <= Work(run[0], |plan|)
  {
    var holder, owner := RunKeepsInv(plan, run, who, |who|);
    RunDropsWork(plan, run, who, |who|);
    WorkIsNat(run[|who|], |plan|);
  }
}
