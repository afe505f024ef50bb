/** What a query answers after any run of appends, flushes and rotations: the whole history of the
    samples accepted, one flush period after the other. */
module AnswerHistory {
  import opened Model
  import opened Seqs
  import opened Memtable
  import opened Sharding
  import opened EngineState
  import opened EngineSteps
  import opened EngineQueries
  import opened EngineRuns
  import opened EngineAnswers
  import opened Aggregation

  /** The samples accepted between two flushes, and where the newest window started at the second. */
  datatype Period = Period(accepted: seq<Point<real>>, start: int)

  datatype History = History(flushed: seq<Period>, current: seq<Point<real>>)

  /** p is the last accepted sample of its series at its timestamp. */
  ghost predicate Latest(accepted: seq<Point<real>>, p: Point<real>) {
    var writes := LastWrites(accepted, p.series);
    p.ts in writes && writes[p.ts] == p.value
  }

  /** In how many flush periods p was the last sample at its timestamp and not left behind by a
      rotation. */
  ghost function StoredTimes(flushed: seq<Period>, p: Point<real>): nat {
    if flushed == [] then 0
    else
      var n := |flushed| - 1;
      StoredTimes(flushed[..n], p) + (if Latest(flushed[n].accepted, p) && p.ts >= flushed[n].start then 1 else 0)
  }

  /** How often p stands in the answer to a query for everything. */
  ghost function Shown(h: History, p: Point<real>): nat {
    StoredTimes(h.flushed, p) + (if Latest(h.current, p) then 1 else 0)
  }

  /** The history after one more call; refused samples do not enter it. */
  ghost function HistoryAfter(settings: Settings, a: Core<real>, op: EngineOp, h: History): History
    requires a.shards.shards != [] && a.shards.window > 0
  {
    match op
    case OpAppend(p, _) =>
      var c := AppendCore(a, p);
      var current := if Routable(a.shards, p.ts) then h.current + [p] else h.current;
      if Routable(a.shards, p.ts) && c.mem.points >= settings.threshold && c.shards.shards != [] then
        History(h.flushed + [Period(current, c.shards.Newest().start)], [])
      else h.(current := current)
    case OpFlush(_) =>
      if a.mem.points == 0 then h else History(h.flushed + [Period(h.current, a.shards.Newest().start)], [])
    case _ => h
  }

  // ----- one table -----

  lemma Apart(pts: seq<Point<real>>, i: nat)
    requires Ascending(pts) && i < |pts|
    ensures pts[i] !in pts[..i] && pts[i] !in pts[i + 1..]
  {
  }

  lemma CountOnce(pts: seq<Point<real>>, i: nat)
    requires i < |pts| && pts[i] !in pts[..i] && pts[i] !in pts[i + 1..]
    ensures multiset(pts)[pts[i]] == 1
  {
    assert pts == pts[..i] + [pts[i]] + pts[i + 1..];
    assert multiset(pts) == multiset(pts[..i]) + multiset{pts[i]} + multiset(pts[i + 1..]);
  }

  /** A sorted list holds p once if p is its value at that timestamp, and not otherwise. */
  lemma CountSorted(pts: seq<Point<real>>, p: Point<real>)
    requires Ascending(pts) && forall q :: q in pts ==> q.series == p.series
    ensures multiset(pts)[p] == if p.ts in AsMap(pts) && AsMap(pts)[p.ts] == p.value then 1 else 0
  {
    hide AsMap, Ascending;
    if p in pts {
      var i :| 0 <= i < |pts| && pts[i] == p;
      AsMapAt(pts, i);
      Apart(pts, i);
      CountOnce(pts, i);
    } else if p.ts in AsMap(pts) {
      var i := AsMapOnly(pts, p.ts);
      assert pts[i] in pts;
    }
  }

  lemma KeptCount(accepted: seq<Point<real>>, start: int, series: nat, rng: QueryRange, p: Point<real>)
    ensures multiset(InRange(PointsOf(KeptFrom(MemWriteAll(EmptyMem(), accepted).byID, start), series), rng))[p]
         == if p.series == series && rng.Holds(p.ts) && p.ts >= start && Latest(accepted, p) then 1 else 0
    ensures multiset(InRange(PointsOf(MemWriteAll(EmptyMem(), accepted).byID, series), rng))[p]
         == if p.series == series && rng.Holds(p.ts) && Latest(accepted, p) then 1 else 0
  {
    hide Filter, LastWrites, MemWriteAll, KeptFrom, AsMap;
    var t := MemWriteAll(EmptyMem<real>(), accepted).byID;
    var pts := PointsOf(t, series);
    WritesRefineMap(accepted, series);
    KeptPoints(t, start, series);
    FilterCount(InsideOf(rng), pts, p);
    FilterCount(AtOrAfter(start), pts, p);
    FilterCount(InsideOf(rng), Filter(AtOrAfter(start), pts), p);
    if p.series == series {
      CountSorted(pts, p);
    } else {
      assert p !in pts;
    }
  }

  lemma FilterCount(keep: Point<real> -> bool, pts: seq<Point<real>>, p: Point<real>)
    ensures multiset(Filter(keep, pts))[p] == if keep(p) then multiset(pts)[p] else 0
  {
    FilterMultiset(keep, pts, p);
  }

  // ----- one step -----

  ghost predicate Records(c: Core<real>, h: History) {
    CoreInvariant(c) && c.mem == MemWriteAll(EmptyMem(), h.current)
  }

  lemma WrittenLast(m: Mem<real>, accepted: seq<Point<real>>, p: Point<real>)
    requires m == MemWriteAll(EmptyMem(), accepted)
    ensures MemWrite(m, p) == MemWriteAll(EmptyMem(), accepted + [p])
  {
    assert (accepted + [p])[..|accepted|] == accepted;
  }

  lemma NoneAccepted()
    ensures MemWriteAll(EmptyMem(), []) == EmptyMem<real>()
  {
  }

  lemma CountStored(flushed: seq<Period>, last: Period, p: Point<real>)
    ensures StoredTimes(flushed + [last], p)
         == StoredTimes(flushed, p) + (if Latest(last.accepted, p) && p.ts >= last.start then 1 else 0)
  {
    hide Latest;
    assert (flushed + [last])[..|flushed|] == flushed;
  }

  /** How often a point is in the blocks: what the answer has beyond the memtable. */
  ghost function InBlocks(c: Core<real>, series: nat, rng: QueryRange): multiset<Point<real>> {
    ShardsBag(c.store, c.shards.shards, series, rng)
  }

  lemma AppendRecords(c: Core<real>, q: Point<real>, h: History, series: nat, rng: QueryRange)
    requires Records(c, h) && c.shards.shards != [] && c.shards.window > 0
    ensures (var b := AppendCore(c, q);
             && Records(b, if Routable(c.shards, q.ts) then h.(current := h.current + [q]) else h)
             && InBlocks(b, series, rng) == InBlocks(c, series, rng))
  {
    hide CoreInvariant, MemWriteAll, MemWrite, RouteShards, MovesOn, ShardsBag;
    AppendKeeps(c, q);
    CoreShape(c);
    if Routable(c.shards, q.ts) {
      WrittenLast(c.mem, h.current, q);
      RouteMoves(c.shards, q.ts);
      MovedBag(c.store, c.shards, RouteShards(c.shards, q.ts), series, rng);
    }
  }

  lemma FlushRecords(c: Core<real>, order: seq<nat>, h: History, series: nat, rng: QueryRange, p: Point<real>)
    requires Records(c, h) && c.shards.shards != [] && c.shards.window > 0 && IsOrder(order, c.mem.byID)
    ensures FlushCore(c, order) == (FlushPlain(c), true)
    ensures c.mem.points > 0 ==>
              && Records(FlushPlain(c), h.(current := []))
              && InBlocks(FlushPlain(c), series, rng)[p]
                 == InBlocks(c, series, rng)[p]
                    + (if p.series == series && rng.Holds(p.ts) && p.ts >= c.shards.Newest().start
                          && Latest(h.current, p) then 1 else 0)
  {
    hide CoreInvariant, MemWriteAll, FlushCore, FlushPlain, KeptFrom, InRange, Latest, ShardsBag;
    FlushKeeps(c, order);
    FlushBag(c, series, rng);
    KeptCount(h.current, c.shards.Newest().start, series, rng, p);
    NoneAccepted();
    if c.mem.points > 0 { FlushedEmpty(c, series, rng); }
  }

  lemma FlushedEmpty(c: Core<real>, series: nat, rng: QueryRange)
    requires c.shards.shards != [] && c.mem.points > 0
    ensures FlushPlain(c).mem == EmptyMem()
    ensures FullBag(FlushPlain(c), series, rng) == InBlocks(FlushPlain(c), series, rng)
  {
    hide ShardsBag;
    FilterNothing(InsideOf<real>(rng));
  }

  /** The blocks gained p as often as the flush periods did. */
  ghost predicate Adds(before: multiset<Point<real>>, after: multiset<Point<real>>, h: History, later: History,
                       series: nat, rng: QueryRange, p: Point<real>) {
    if p.series == series && rng.Holds(p.ts) then
      after[p] + StoredTimes(h.flushed, p) == before[p] + StoredTimes(later.flushed, p)
    else after[p] == before[p]
  }

  /** What one call adds to the answers. */
  lemma StepHistory(settings: Settings, a: Core<real>, op: EngineOp, b: Core<real>, h: History,
                    series: nat, rng: QueryRange, p: Point<real>)
    requires Records(a, h) && a.shards.shards != [] && a.shards.window > 0 && Next(settings, a, op, b)
    requires op.OpAppend? || op.OpFlush? || op.OpForceRotate?
    ensures (var after := HistoryAfter(settings, a, op, h);
             && Records(b, after)
             && Adds(InBlocks(a, series, rng), InBlocks(b, series, rng), h, after, series, rng, p))
  {
    hide CoreInvariant, MemWriteAll, FlushCore, FlushPlain, AppendCore, RotateShards, Latest, ShardsBag, StoredTimes,
      InBlocks;
    match op {
      case OpAppend(q, order) =>
        AppendRecords(a, q, h, series, rng);
        AppendWindow(a, q);
        var c := AppendCore(a, q);
        if Routable(a.shards, q.ts) && c.mem.points >= settings.threshold {
          var current := h.(current := h.current + [q]);
          SomeBuffered(a, q, h);
          FlushRecords(c, order, current, series, rng, p);
          CountStored(h.flushed, Period(current.current, c.shards.Newest().start), p);
        }
      case OpFlush(order) =>
        FlushRecords(a, order, h, series, rng, p);
        CountStored(h.flushed, Period(h.current, a.shards.Newest().start), p);
        if a.mem.points == 0 { FlushNothing(a); }
      case OpForceRotate => RotateRecords(a, h, series, rng);
    }
  }

  lemma SomeBuffered(a: Core<real>, q: Point<real>, h: History)
    requires a.shards.shards != [] && a.shards.window > 0 && Routable(a.shards, q.ts)
    ensures AppendCore(a, q).mem.points > 0
  {
    hide RouteShards, Upsert;
  }

  lemma RotateRecords(c: Core<real>, h: History, series: nat, rng: QueryRange)
    requires Records(c, h) && c.shards.shards != []
    ensures Records(c.(shards := RotateShards(c.shards)), h)
    ensures InBlocks(c.(shards := RotateShards(c.shards)), series, rng) == InBlocks(c, series, rng)
  {
    hide CoreInvariant, RotateShards, MovesOn, ShardsBag, MemWriteAll;
    CoreShape(c);
    RotateMoves(c.shards);
    MovedInvariant(c, RotateShards(c.shards));
    MovedBag(c.store, c.shards, RotateShards(c.shards), series, rng);
  }

  // ----- whole runs -----

  ghost function HistoryRun(settings: Settings, states: seq<Core<real>>, ops: seq<EngineOp>, n: nat): History
    requires n <= |ops| <= |states|
    requires forall k :: 0 <= k < |ops| ==> states[k].shards.shards != [] && states[k].shards.window > 0
  {
    if n == 0 then History([], [])
    else HistoryAfter(settings, states[n - 1], ops[n - 1], HistoryRun(settings, states, ops, n - 1))
  }

  ghost predicate OnlyWrites(ops: seq<EngineOp>) {
    forall k :: 0 <= k < |ops| ==> ops[k].OpAppend? || ops[k].OpFlush? || ops[k].OpForceRotate?
  }

  lemma {:induction false} RunHistory(settings: Settings, states: seq<Core<real>>, ops: seq<EngineOp>, n: nat,
                                      series: nat, rng: QueryRange, p: Point<real>)
    requires IsEngineRun(settings, states, ops) && OnlyWrites(ops) && n <= |ops|
    requires CoreInvariant(states[0]) && states[0].mem == EmptyMem()
    ensures Records(states[n], HistoryRun(settings, states, ops, n))
    ensures InBlocks(states[n], series, rng)[p]
         == InBlocks(states[0], series, rng)[p]
            + (if p.series == series && rng.Holds(p.ts)
               then StoredTimes(HistoryRun(settings, states, ops, n).flushed, p) else 0)
    decreases n
  {
    hide CoreInvariant, Next, Records, InBlocks, HistoryAfter;
    if n == 0 {
      NothingYet(states[0]);
    } else {
      RunHistory(settings, states, ops, n - 1, series, rng, p);
      StepHistory(settings, states[n - 1], ops[n - 1], states[n], HistoryRun(settings, states, ops, n - 1),
                  series, rng, p);
    }
  }

  lemma NothingYet(c: Core<real>)
    requires CoreInvariant(c) && c.mem == EmptyMem()
    ensures Records(c, History([], []))
  {
    hide CoreInvariant;
    NoneAccepted();
  }

  /** Over every run of appends, flushes and forced rotations a query answers, on top of what the
      blocks held before, every point as often as there are flush periods in which it was the last
      sample accepted at its timestamp and not left behind by a rotation, and once more if it is the
      last one now. */
  lemma AnswersAreHistory(settings: Settings, states: seq<Core<real>>, ops: seq<EngineOp>, n: nat,
                          series: nat, rng: QueryRange, p: Point<real>)
    requires IsEngineRun(settings, states, ops) && OnlyWrites(ops) && n <= |ops|
    requires CoreInvariant(states[0]) && states[0].mem == EmptyMem()
    ensures CollectBag(states[n], series, rng)[p]
         == CollectBag(states[0], series, rng)[p]
            + (if p.series == series && rng.Holds(p.ts) then Shown(HistoryRun(settings, states, ops, n), p) else 0)
  {
    hide CoreInvariant, Next, ShardsBag, InRange, MemWriteAll, HistoryRun, Latest, StoredTimes;
    var h := HistoryRun(settings, states, ops, n);
    RunHistory(settings, states, ops, n, series, rng, p);
    RunHistory(settings, states, ops, 0, series, rng, p);
    PruningIsComplete(states[n], series, rng);
    PruningIsComplete(states[0], series, rng);
    KeptCount(h.current, 0, series, rng, p);
    FilterEmpty(rng);
  }

  /** A timestamp written again after a flush is in the answer twice, be it with the same value or with
      another one. */
  lemma RewrittenShowsTwice(h: History, p: Point<real>, q: Point<real>)
    requires h.flushed != [] && p.series == q.series && p.ts == q.ts
    requires Latest(h.flushed[|h.flushed| - 1].accepted, p) && p.ts >= h.flushed[|h.flushed| - 1].start
    requires Latest(h.current, q)
    ensures p == q ==> Shown(h, p) >= 2
    ensures p != q ==> Shown(h, p) >= 1 && Shown(h, q) >= 1
  {
  }

  lemma FilterEmpty(rng: QueryRange)
    ensures InRange<real>([], rng) == [] && PointsOf(EmptyMem<real>().byID, 0) == []
  {
  }
}
