/** `Engine`: range queries over the memtable and the stored blocks. */
module Querying {
  import opened Model
  import opened Seqs
  import opened Memtable
  import opened TimeSearch
  import opened Sharding
  import opened Storage
  import opened EngineState
  import opened EngineSteps
  import opened EngineQueries
  import opened Aggregation

  datatype AggFunc = AggAvg | AggSum | AggMin | AggMax | AggCount

  datatype Sample = Sample(ts: int, value: real, count: nat)

  // ----- sorting -----

  predicate Before(p: Point<real>, q: Point<real>) {
    p.ts < q.ts || (p.ts == q.ts && p.series <= q.series)
  }

  ghost predicate InOrder(pts: seq<Point<real>>) {
    forall i, j :: 0 <= i < j < |pts| ==> Before(pts[i], pts[j])
  }

  lemma InOrderByTime(pts: seq<Point<real>>)
    requires InOrder(pts)
    ensures SortedByTime(pts)
  {
  }

  /** One insertion: p goes behind the last point that may precede it. */
  method InsertPoint(pts: seq<Point<real>>, p: Point<real>) returns (out: seq<Point<real>>)
    requires InOrder(pts)
    ensures InOrder(out) && multiset(out) == multiset(pts) + multiset{p}
  {
    hide InOrder;
    var k := |pts|;
    while k > 0 && !Before(pts[k - 1], p)
      invariant 0 <= k <= |pts|
      invariant forall i :: k <= i < |pts| ==> !Before(pts[i], p)
    {
      k := k - 1;
    }
    out := pts[..k] + [p] + pts[k..];
    InsertInOrder(pts, k, p);
    assert pts == pts[..k] + pts[k..];
  }

  lemma InsertInOrder(pts: seq<Point<real>>, k: nat, p: Point<real>)
    requires InOrder(pts) && k <= |pts|
    requires k > 0 ==> Before(pts[k - 1], p)
    requires forall i :: k <= i < |pts| ==> !Before(pts[i], p)
    ensures InOrder(pts[..k] + [p] + pts[k..])
  {
    var out := pts[..k] + [p] + pts[k..];
    forall i, j | 0 <= i < j < |out| ensures Before(out[i], out[j]) {
      if i < k { assert Before(pts[i], pts[k - 1]) || i == k - 1; }
    }
  }

  /** `sort.Slice` on timestamp, then series. */
  method SortPoints(pts: seq<Point<real>>) returns (out: seq<Point<real>>)
    ensures InOrder(out) && multiset(out) == multiset(pts)
    ensures forall i, j :: 0 <= i < j < |out| ==>
                             out[i].ts < out[j].ts || (out[i].ts == out[j].ts && out[i].series <= out[j].series)
  {
    out := [];
    for i := 0 to |pts|
      invariant InOrder(out) && multiset(out) == multiset(pts[..i])
    {
      out := InsertPoint(out, pts[i]);
      assert pts[..i + 1] == pts[..i] + [pts[i]];
    }
    assert pts[..|pts|] == pts;
  }

  // ----- aggregation -----

  function Value(a: Acc, agg: AggFunc): real
    requires a.count > 0
  {
    match agg
    case AggAvg => a.sum / a.count as real
    case AggSum => a.sum
    case AggMin => a.min
    case AggMax => a.max
    case AggCount => a.count as real
  }

  ghost predicate Counted(accs: seq<Acc>) {
    forall i :: 0 <= i < |accs| ==> accs[i].count > 0
  }

  function Samples(accs: seq<Acc>, agg: AggFunc): (out: seq<Sample>)
    requires Counted(accs)
  {
    seq(|accs|, i requires 0 <= i < |accs| => Sample(accs[i].ts, Value(accs[i], agg), accs[i].count))
  }

  lemma {:induction false} FoldCounted(pts: seq<Point<real>>, step: int)
    requires step > 0
    ensures Counted(FoldWindows(pts, step))
    decreases |pts|
  {
    hide Align;
    if pts != [] { FoldCounted(pts[..|pts| - 1], step); }
  }

  /** What a query must answer: one sample for every window that has points, in time order, each
      with the exact aggregate and number of all the points of that window. */
  ghost predicate Answers(out: seq<Sample>, pts: seq<Point<real>>, agg: AggFunc, step: int)
    requires step > 0
  {
    && (forall i, j :: 0 <= i < j < |out| ==> out[i].ts < out[j].ts)
    && (forall p :: p in pts ==> exists i :: 0 <= i < |out| && out[i].ts == Align(p.ts, step))
    && (forall i :: 0 <= i < |out| ==> AnswersOne(out[i], Aggregation.Group(pts, step, out[i].ts), agg))
  }

  ghost predicate AnswersOne(s: Sample, g: seq<Point<real>>, agg: AggFunc) {
    && g != [] && s.count == |g|
    && match agg
       case AggAvg => s.value * |g| as real == Sum(g)
       case AggSum => s.value == Sum(g)
       case AggMin => IsMin(s.value, g)
       case AggMax => IsMax(s.value, g)
       case AggCount => s.value == |g| as real
  }

  lemma SampleAnswers(a: Acc, g: seq<Point<real>>, agg: AggFunc)
    requires Summarizes(a, g)
    ensures a.count > 0 && AnswersOne(Sample(a.ts, Value(a, agg), a.count), g, agg)
  {
    hide Sum, IsMin, IsMax;
    AverageTimesCount(a.sum, a.count);
  }

  lemma AverageTimesCount(sum: real, n: nat)
    requires n > 0
    ensures sum / n as real * n as real == sum
  {
  }

  lemma FoldAnswers(pts: seq<Point<real>>, agg: AggFunc, step: int)
    requires step > 0 && SortedByTime(pts)
    ensures Counted(FoldWindows(pts, step)) && Answers(Samples(FoldWindows(pts, step), agg), pts, agg, step)
  {
    hide FoldWindows, Align, Aggregation.Group, Summarizes, Value, AnswersOne;
    var accs := FoldWindows(pts, step);
    FoldCounted(pts, step);
    FoldIsGrouping(pts, step);
    var out, starts := Samples(accs, agg), StartsOf(accs);
    forall i | 0 <= i < |out| ensures AnswersOne(out[i], Aggregation.Group(pts, step, out[i].ts), agg) {
      assert Summarizes(accs[i], Aggregation.Group(pts, step, accs[i].ts));
      SampleAnswers(accs[i], Aggregation.Group(pts, step, accs[i].ts), agg);
    }
    forall p | p in pts ensures exists i :: 0 <= i < |out| && out[i].ts == Align(p.ts, step) {
      var i :| 0 <= i < |starts| && starts[i] == Align(p.ts, step);
      assert out[i].ts == Align(p.ts, step);
    }
  }

  /** The accumulation loop of `aggregate`. */
  method Accumulate(pts: seq<Point<real>>, step: int) returns (windows: seq<Acc>)
    requires step > 0
    ensures windows == FoldWindows(pts, step)
  {
    windows := [];
    for i := 0 to |pts|
      invariant windows == FoldWindows(pts[..i], step)
    {
      assert pts[..i + 1][..i] == pts[..i];
      var p := pts[i];
      var start := p.ts - GoMod(p.ts, step);
      if |windows| == 0 || windows[|windows| - 1].ts != start {
        windows := windows + [Acc(start, p.value, p.value, p.value, 1)];
      } else {
        var last := windows[|windows| - 1];
        last := last.(sum := last.sum + p.value);
        if p.value < last.min {
          last := last.(min := p.value);
        }
        if p.value > last.max {
          last := last.(max := p.value);
        }
        last := last.(count := last.count + 1);
        windows := windows[|windows| - 1 := last];
      }
    }
    assert pts[..|pts|] == pts;
  }

  /** `aggregate`, for the functions that look at one window at a time. */
  method Aggregate(pts: seq<Point<real>>, agg: AggFunc, step: int) returns (out: seq<Sample>)
    requires SortedByTime(pts)
    ensures Counted(FoldWindows(pts, EffectiveStep(step)))
    ensures out == Samples(FoldWindows(pts, EffectiveStep(step)), agg)
    ensures step > 0 ==> Answers(out, pts, agg, step)
    ensures step <= 0 ==> Answers(out, pts, agg, 60_000_000_000)
  {
    hide Answers, FoldWindows;
    var windows := Accumulate(pts, EffectiveStep(step));
    FoldAnswers(pts, agg, EffectiveStep(step));
    out := [];
    for i := 0 to |windows|
      invariant out == Samples(windows, agg)[..i]
    {
      var w := windows[i];
      var value := w.sum / w.count as real;
      match agg {
        case AggSum => value := w.sum;
        case AggMin => value := w.min;
        case AggMax => value := w.max;
        case AggCount => value := w.count as real;
        case AggAvg =>
      }
      out := out + [Sample(w.ts, value, w.count)];
    }
    assert out == Samples(windows, agg);
  }

  // ----- the engine -----

  /** Everything a query may search is sorted. */
  ghost predicate Searchable(c: Core<real>) {
    && WellFormedTable(c.mem.byID)
    && forall id :: id in c.store.blocks ==> WellFormedTable(c.store.blocks[id].byID)
  }

  /** So every state of a run is one that queries may be put to. */
  lemma InvariantIsSearchable(c: Core<real>)
    requires CoreInvariant(c)
    ensures Searchable(c)
  {
    hide WellFormedTable, ShardInvariant, StoreInvariant, ListingGood;
  }

  ghost predicate BlockSliceable(s: StoreV<real>, id: nat, series: nat, rng: QueryRange) {
    Openable(s, id) ==> Sliceable(PointsOf(s.blocks[id].byID, series), rng)
  }

  /** No slice a query takes is invalid: the range is upright, or no point of the memtable or of an
      openable block of an overlapping shard lies between its bounds. */
  ghost predicate Answerable(c: Core<real>, series: nat, rng: QueryRange) {
    && Sliceable(PointsOf(c.mem.byID, series), rng)
    && forall sh, id :: sh in c.shards.shards && Covers(sh, rng) && id in sh.blocks ==>
                          BlockSliceable(c.store, id, series, rng)
  }

  lemma CoveringAnswerable(c: Core<real>, series: nat, rng: QueryRange)
    requires Answerable(c, series, rng)
    ensures forall sh, id :: sh in Filter(CoveringFilter(rng), c.shards.shards) && id in sh.blocks ==>
                               BlockSliceable(c.store, id, series, rng)
  {
    hide Filter, Covers, BlockSliceable;
    forall sh | sh in Filter(CoveringFilter(rng), c.shards.shards) ensures sh in c.shards.shards && Covers(sh, rng) {
      FilterMember(CoveringFilter(rng), c.shards.shards, sh);
    }
  }

  class Engine {
    const mem: MemTable<real>
    const shards: Manager
    const store: Store<real>

    ghost predicate Valid()
      reads mem, store, shards
    {
      && store.Valid() && shards.Valid() && store.Repr() !! shards.Repr()
      && mem !in store.Repr() + shards.Repr() && mem.current !in store.Repr() + shards.Repr()
    }

    ghost function View(): Core<real>
      reads mem, mem.current, store, store.Repr(), shards, shards.Repr()
    {
      Core(mem.View(), shards.View(), store.View())
    }

    constructor (mem: MemTable<real>, shards: Manager, store: Store<real>)
      requires store.Valid() && shards.Valid() && store.Repr() !! shards.Repr()
      requires mem !in store.Repr() + shards.Repr() && mem.current !in store.Repr() + shards.Repr()
      ensures Valid() && this.mem == mem && this.shards == shards && this.store == store
    {
      this.mem, this.shards, this.store := mem, shards, store;
    }

    /** Opens one block, reads it and closes it; a block that cannot be opened is skipped. */
    method ReadBlock(id: nat, series: nat, rng: QueryRange) returns (pts: seq<Point<real>>)
      requires store.Valid() && BlockSliceable(store.View(), id, series, rng)
      requires id in store.View().blocks ==> WellFormedTable(store.View().blocks[id].byID)
      modifies store.Repr()
      ensures store.Valid() && store.Repr() == old(store.Repr()) && store.View() == old(store.View())
      ensures multiset(pts) == BlockBag(store.View(), id, series, rng)
    {
      hide WellFormedTable, InRange, PointsOf, Store.Valid, Store.View;
      var got := store.Open(id);
      if got.Err? || got.value.None? {
        return [];
      }
      var b := got.value.value;
      pts := b.Range(series, rng);
      store.Close(b);
      OpenThenClose(old(store.View()), id);
    }

    /** The inner loop of `collect`, over one shard's blocks. */
    method ReadShard(ids: seq<nat>, series: nat, rng: QueryRange) returns (pts: seq<Point<real>>)
      requires store.Valid() && forall id :: id in ids ==> BlockSliceable(store.View(), id, series, rng)
      requires forall id :: id in store.View().blocks ==> WellFormedTable(store.View().blocks[id].byID)
      modifies store.Repr()
      ensures store.Valid() && store.Repr() == old(store.Repr()) && store.View() == old(store.View())
      ensures multiset(pts) == IdsBag(store.View(), ids, series, rng)
    {
      hide WellFormedTable, BlockBag, IdsBag, Store.Valid, Store.View;
      pts := [];
      NoIds(store.View(), series, rng);
      for i := 0 to |ids|
        invariant store.Valid() && store.Repr() == old(store.Repr()) && store.View() == old(store.View())
        invariant multiset(pts) == IdsBag(store.View(), ids[..i], series, rng)
      {
        var more := ReadBlock(ids[i], series, rng);
        IdsBagSnoc(store.View(), ids[..i], ids[i], series, rng);
        assert ids[..i + 1] == ids[..i] + [ids[i]];
        pts := pts + more;
      }
      assert ids[..|ids|] == ids;
    }

    /** The outer loop of `collect`, over the shards whose window overlaps the range. */
    method ReadShards(covering: seq<Shard>, series: nat, rng: QueryRange) returns (pts: seq<Point<real>>)
      requires store.Valid()
      requires forall sh, id :: sh in ViewsOf(covering) && id in sh.blocks ==>
                                  BlockSliceable(store.View(), id, series, rng)
      requires forall id :: id in store.View().blocks ==> WellFormedTable(store.View().blocks[id].byID)
      requires forall sh :: sh in covering ==> sh !in store.Repr()
      modifies store.Repr()
      ensures store.Valid() && store.Repr() == old(store.Repr()) && store.View() == old(store.View())
      ensures multiset(pts) == ShardsBag(store.View(), old(ViewsOf(covering)), series, rng)
    {
      hide WellFormedTable, IdsBag, ShardsBag, Store.Valid, Store.View, ViewsOf;
      ghost var views := ViewsOf(covering);
      pts := [];
      NoShards(store.View(), series, rng);
      for i := 0 to |covering|
        invariant store.Valid() && store.Repr() == old(store.Repr()) && store.View() == old(store.View())
        invariant multiset(pts) == ShardsBag(store.View(), views[..i], series, rng)
      {
        assert views[i] == old(covering[i].View());
        var more := ReadShard(covering[i].blocks, series, rng);
        ShardsBagSnoc(store.View(), views[..i], views[i], series, rng);
        assert views[..i + 1] == views[..i] + [views[i]];
        pts := pts + more;
      }
      assert views[..|covering|] == views;
    }

    lemma NoShards(s: StoreV<real>, series: nat, rng: QueryRange)
      ensures ShardsBag(s, [], series, rng) == multiset{}
    {
    }

    /** `collect`. */
    method Collect(series: nat, rng: QueryRange) returns (pts: seq<Point<real>>)
      requires Valid() && Searchable(View()) && Answerable(View(), series, rng)
      modifies mem.current`refs, store.Repr()
      ensures Valid() && View() == old(View())
      ensures InOrder(pts) && multiset(pts) == CollectBag(View(), series, rng)
    {
      hide WellFormedTable, InOrder, ShardsBag, InRange, PointsOf, Filter, CoveringFilter, ViewsOf, Store.Valid,
        Store.View, Manager.Valid, Manager.Shown;
      CoveringAnswerable(View(), series, rng);
      var buffered := mem.Read(series, rng);
      var covering := shards.ShardsCovering(rng);
      var stored := ReadShards(covering, series, rng);
      pts := SortPoints(buffered + stored);
    }

    /** `QueryRange`. The answer is exact for the points collected, of which `all` is a list; under the
        invariant those are the points of the memtable and of every listed block in the range, each
        counted once. */
    method QueryRange(series: nat, rng: QueryRange, agg: AggFunc, step: int)
      returns (out: seq<Sample>, ghost all: seq<Point<real>>)
      requires Valid() && Searchable(View()) && Answerable(View(), series, rng)
      modifies mem.current`refs, store.Repr()
      ensures Valid() && View() == old(View())
      ensures InOrder(all) && multiset(all) == CollectBag(View(), series, rng)
      ensures CoreInvariant(View()) ==> multiset(all) == FullBag(View(), series, rng)
      ensures Counted(FoldWindows(all, EffectiveStep(step)))
      ensures out == Samples(FoldWindows(all, EffectiveStep(step)), agg)
      ensures step > 0 ==> Answers(out, all, agg, step)
      ensures step <= 0 ==> Answers(out, all, agg, 60_000_000_000)
    {
      hide Answers, CoreInvariant, Searchable, CollectBag, FullBag, FoldWindows, InOrder, Samples;
      if CoreInvariant(View()) { PruningIsComplete(View(), series, rng); }
      var pts := Collect(series, rng);
      InOrderByTime(pts);
      out := Aggregate(pts, agg, step);
      all := pts;
    }
  }

  /** The answer depends on the points found only, not on how they were spread over memtable and
      blocks, nor on how the sort ordered equal ones. */
  lemma AnswerDependsOnPoints(p: seq<Point<real>>, q: seq<Point<real>>, agg: AggFunc, step: int)
    requires step > 0 && SortedByTime(p) && SortedByTime(q) && multiset(p) == multiset(q)
    ensures Counted(FoldWindows(p, step)) && Counted(FoldWindows(q, step))
    ensures Samples(FoldWindows(p, step), agg) == Samples(FoldWindows(q, step), agg)
  {
    FoldCounted(p, step);
    FoldDependsOnMultiset(p, q, step);
  }
}
