/** Downsampling one series: `aggregateWindow`, and what it does to later queries. */
module Downsample {
  import opened Model
  import opened Seqs
  import opened Aggregation

  function Average(a: Acc): real {
    if a.count == 0 then 0.0 else a.sum / a.count as real
  }

  function PointOf(a: Acc, series: nat): Point<real> {
    Point(a.ts, Average(a), series)
  }

  /** One averaged point per window, all filed under `series`. */
  function Averaged(accs: seq<Acc>, series: nat): (out: seq<Point<real>>)
    ensures |out| == |accs|
    ensures forall i :: 0 <= i < |accs| ==> out[i] == PointOf(accs[i], series)
  {
    seq(|accs|, i requires 0 <= i < |accs| => PointOf(accs[i], series))
  }

  /** `aggregateWindow`. */
  function CompactPoints(pts: seq<Point<real>>, step: int): seq<Point<real>>
    requires step > 0
  {
    if pts == [] then [] else Averaged(FoldWindows(pts, step), pts[0].series)
  }

  // ----- averages stay within bounds -----

  lemma {:induction false} SumWithin(g: seq<Point<real>>, lo: real, hi: real)
    requires forall p :: p in g ==> lo <= p.value <= hi
    ensures lo * |g| as real <= Sum(g) <= hi * |g| as real
    decreases |g|
  {
    if g != [] {
      var n := |g| - 1;
      SumWithin(g[..n], lo, hi);
      assert lo * (n + 1) as real == lo * n as real + lo;
      assert hi * (n + 1) as real == hi * n as real + hi;
    }
  }

  lemma DivideWithin(sum: real, n: real, lo: real, hi: real)
    requires n > 0.0 && lo * n <= sum <= hi * n
    ensures lo <= sum / n <= hi
  {
    var q := sum / n;
    assert q * n == sum;
    if q < lo { MulLess(q, lo, n); }
    if q > hi { MulLess(hi, q, n); }
  }

  lemma MulLess(x: real, y: real, n: real)
    requires x < y && n > 0.0
    ensures x * n < y * n
  {
  }

  /** The average of a non-empty group lies between any bounds on its values. */
  lemma AverageWithin(a: Acc, g: seq<Point<real>>, lo: real, hi: real)
    requires Summarizes(a, g) && forall p :: p in g ==> lo <= p.value <= hi
    ensures lo <= Average(a) <= hi
  {
    SumWithin(g, lo, hi);
    DivideWithin(a.sum, a.count as real, lo, hi);
  }

  // ----- compacted input -----

  lemma FoldSeries(pts: seq<Point<real>>, step: int)
    requires step > 0 && pts != []
    ensures FoldWindows(pts, step) != []
  {
  }

  lemma {:induction false} StartsSorted(accs: seq<Acc>, series: nat)
    requires AscendingInts(StartsOf(accs))
    ensures Ascending(Averaged(accs, series)) && SortedByTime(Averaged(accs, series))
  {
    forall i, j | 0 <= i < j < |accs| ensures accs[i].ts < accs[j].ts {
      assert StartsOf(accs)[i] < StartsOf(accs)[j];
    }
  }

  /** Every compacted point stands for a non-empty fine window of raw points, and averages it. */
  lemma CompactedStandsFor(pts: seq<Point<real>>, fine: int, series: nat, c: Point<real>) returns (i: nat)
    requires fine > 0 && SortedByTime(pts) && c in Averaged(FoldWindows(pts, fine), series)
    ensures i < |FoldWindows(pts, fine)| && c == PointOf(FoldWindows(pts, fine)[i], series)
    ensures Summarizes(FoldWindows(pts, fine)[i], Group(pts, fine, c.ts))
  {
    FoldIsGrouping(pts, fine);
    var accs := FoldWindows(pts, fine);
    i :| 0 <= i < |accs| && Averaged(accs, series)[i] == c;
  }

  /** A coarse window's compacted points lie between bounds on its raw points. */
  lemma CompactedWithin(pts: seq<Point<real>>, fine: int, coarse: int, series: nat, w: int, lo: real, hi: real)
    requires fine > 0 && coarse > 0 && coarse % fine == 0 && SortedByTime(pts)
    requires forall p :: p in Group(pts, coarse, w) ==> lo <= p.value <= hi
    ensures forall c :: c in Group(Averaged(FoldWindows(pts, fine), series), coarse, w) ==> lo <= c.value <= hi
  {
    hide FoldWindows, Group, Summarizes, Averaged;
    var cs := Averaged(FoldWindows(pts, fine), series);
    forall c | c in Group(cs, coarse, w) ensures lo <= c.value <= hi {
      GroupMember(cs, coarse, w, c);
      var i := CompactedStandsFor(pts, fine, series, c);
      var g := Group(pts, fine, c.ts);
      forall p | p in g ensures lo <= p.value <= hi {
        GroupMember(pts, fine, c.ts, p);
        AlignNested(p.ts, fine, coarse);
        GroupMember(pts, coarse, w, p);
      }
      AverageWithin(FoldWindows(pts, fine)[i], g, lo, hi);
    }
  }

  /** Compaction keeps which coarse windows have points. */
  lemma CompactedWindows(pts: seq<Point<real>>, fine: int, coarse: int, series: nat, w: int)
    requires fine > 0 && coarse > 0 && coarse % fine == 0 && SortedByTime(pts)
    ensures (exists p :: p in pts && Align(p.ts, coarse) == w)
       <==> (exists c :: c in Averaged(FoldWindows(pts, fine), series) && Align(c.ts, coarse) == w)
  {
    hide FoldWindows, Align, Summarizes;
    var accs := FoldWindows(pts, fine);
    var cs := Averaged(accs, series);
    FoldIsGrouping(pts, fine);
    if p :| p in pts && Align(p.ts, coarse) == w {
      var i :| 0 <= i < |accs| && StartsOf(accs)[i] == Align(p.ts, fine);
      AlignNested(p.ts, fine, coarse);
      assert cs[i] in cs;
    }
    if c :| c in cs && Align(c.ts, coarse) == w {
      var i :| 0 <= i < |accs| && cs[i] == c;
      var p := GroupingStart(accs, pts, fine, i);
      AlignNested(p.ts, fine, coarse);
    }
  }

  /** How many starts lie in a coarse window. */
  function StartsIn(starts: seq<int>, step: int, w: int): nat
    requires step > 0
  {
    if starts == [] then 0
    else StartsIn(starts[..|starts| - 1], step, w) + (if Align(starts[|starts| - 1], step) == w then 1 else 0)
  }

  lemma {:induction false} GroupCounts(accs: seq<Acc>, series: nat, step: int, w: int)
    requires step > 0
    ensures |Group(Averaged(accs, series), step, w)| == StartsIn(StartsOf(accs), step, w)
    decreases |accs|
  {
    if accs == [] {
    } else {
      var n := |accs| - 1;
      GroupCounts(accs[..n], series, step, w);
      assert StartsOf(accs)[..n] == StartsOf(accs[..n]);
      assert Averaged(accs, series) == Averaged(accs[..n], series) + [PointOf(accs[n], series)];
      GroupSnoc(Averaged(accs[..n], series), PointOf(accs[n], series), step, w);
    }
  }

  /** A coarse window never gains points by compaction. */
  lemma {:induction false} CompactedCount(pts: seq<Point<real>>, fine: int, coarse: int, w: int)
    requires fine > 0 && coarse > 0 && coarse % fine == 0
    ensures StartsIn(StartsOf(FoldWindows(pts, fine)), coarse, w) <= |Group(pts, coarse, w)|
    decreases |pts|
  {
    hide Align, Group;
    if pts != [] {
      var before, p := pts[..|pts| - 1], pts[|pts| - 1];
      assert pts == before + [p];
      CompactedCount(before, fine, coarse, w);
      GroupSnoc(before, p, coarse, w);
      AlignNested(p.ts, fine, coarse);
      AddPointStarts(FoldWindows(before, fine), p, fine);
      var starts := StartsOf(FoldWindows(before, fine));
      assert (starts + [Align(p.ts, fine)])[..|starts|] == starts;
    }
  }

  lemma AddPointStarts(accs: seq<Acc>, p: Point<real>, step: int)
    requires step > 0
    ensures StartsOf(AddPoint(accs, p, step))
         == if accs == [] || accs[|accs| - 1].ts != Align(p.ts, step) then StartsOf(accs) + [Align(p.ts, step)]
            else StartsOf(accs)
  {
    hide Align;
  }

  /** What a coarse window reports over compacted points, against the raw ones. */
  ghost predicate Coarsens(c: Acc, r: Acc) {
    && c.ts == r.ts
    && r.min <= c.min && c.max <= r.max
    && r.min <= Average(c) <= r.max
    && c.count <= r.count
  }

  /** Over compacted points every query window with a step that is a multiple of the downsample
      window is still there, its minimum no lower, its maximum no higher, its average within the
      raw bounds and its count no larger. */
  lemma CompactedAggregates(pts: seq<Point<real>>, fine: int, coarse: int)
    requires fine > 0 && coarse > 0 && coarse % fine == 0
    requires SortedByTime(pts)
    ensures (var raw, compacted := FoldWindows(pts, coarse), FoldWindows(CompactPoints(pts, fine), coarse);
             && |compacted| == |raw|
             && forall i :: 0 <= i < |raw| ==> Coarsens(compacted[i], raw[i]))
  {
    hide FoldWindows, Group, Summarizes, Coarsens, Align, Averaged;
    if pts != [] {
      var series := pts[0].series;
      var cs := Averaged(FoldWindows(pts, fine), series);
      FoldIsGrouping(pts, fine);
      StartsSorted(FoldWindows(pts, fine), series);
      FoldIsGrouping(pts, coarse);
      FoldIsGrouping(cs, coarse);
      var raw, compacted := FoldWindows(pts, coarse), FoldWindows(cs, coarse);
      forall w ensures w in StartsOf(raw) <==> w in StartsOf(compacted) {
        CompactedWindows(pts, fine, coarse, series, w);
        StartsAre(raw, pts, coarse, w);
        StartsAre(compacted, cs, coarse, w);
      }
      AscendingIntsUnique(StartsOf(raw), StartsOf(compacted));
      forall i | 0 <= i < |raw| ensures Coarsens(compacted[i], raw[i]) {
        assert StartsOf(raw)[i] == StartsOf(compacted)[i];
        CoarsensAt(pts, fine, coarse, series, raw[i], compacted[i]);
      }
    } else {
      NoWindows(coarse);
    }
  }

  lemma NoWindows(step: int)
    requires step > 0
    ensures FoldWindows([], step) == []
  {
  }

  lemma StartsAre(accs: seq<Acc>, pts: seq<Point<real>>, step: int, w: int)
    requires step > 0 && IsGrouping(accs, pts, step)
    ensures w in StartsOf(accs) <==> exists p :: p in pts && Align(p.ts, step) == w
  {
    if w in StartsOf(accs) {
      var i :| 0 <= i < |accs| && StartsOf(accs)[i] == w;
      var p := GroupingStart(accs, pts, step, i);
    }
  }

  lemma CoarsensAt(pts: seq<Point<real>>, fine: int, coarse: int, series: nat, r: Acc, c: Acc)
    requires fine > 0 && coarse > 0 && coarse % fine == 0
    requires SortedByTime(pts) && r.ts == c.ts
    requires Summarizes(r, Group(pts, coarse, r.ts))
    requires Summarizes(c, Group(Averaged(FoldWindows(pts, fine), series), coarse, r.ts))
    ensures Coarsens(c, r)
  {
    hide FoldWindows, Group, Averaged;
    var cg := Group(Averaged(FoldWindows(pts, fine), series), coarse, r.ts);
    CompactedWithin(pts, fine, coarse, series, r.ts, r.min, r.max);
    AverageWithin(c, cg, r.min, r.max);
    GroupCounts(FoldWindows(pts, fine), series, coarse, r.ts);
    CompactedCount(pts, fine, coarse, r.ts);
  }

  // ----- at exactly the downsample window -----

  function Single(p: Point<real>): Acc {
    Acc(p.ts, p.value, p.value, p.value, 1)
  }

  /** Points already one per window pass through the loop unchanged. */
  lemma {:induction false} FoldOnePerWindow(pts: seq<Point<real>>, step: int)
    requires step > 0 && Ascending(pts) && forall p :: p in pts ==> Align(p.ts, step) == p.ts
    ensures |FoldWindows(pts, step)| == |pts|
    ensures forall i :: 0 <= i < |pts| ==> FoldWindows(pts, step)[i] == Single(pts[i])
    decreases |pts|
  {
    hide Align, Merge;
    if pts != [] {
      var n := |pts| - 1;
      FoldOnePerWindow(pts[..n], step);
      assert pts[n] in pts;
      if n > 0 { assert FoldWindows(pts[..n], step)[n - 1].ts == pts[n - 1].ts; }
    }
  }

  lemma CompactedAligned(pts: seq<Point<real>>, step: int)
    requires step > 0 && SortedByTime(pts)
    ensures Ascending(CompactPoints(pts, step))
    ensures forall c :: c in CompactPoints(pts, step) ==> Align(c.ts, step) == c.ts
  {
    hide FoldWindows, Align, Group, Summarizes;
    if pts != [] {
      var accs := FoldWindows(pts, step);
      FoldIsGrouping(pts, step);
      StartsSorted(accs, pts[0].series);
      forall c | c in CompactPoints(pts, step) ensures Align(c.ts, step) == c.ts {
        var i :| 0 <= i < |accs| && CompactPoints(pts, step)[i] == c;
        var p := GroupingStart(accs, pts, step, i);
        AlignFixed(p.ts, step);
      }
    }
  }

  /** Queried at exactly the downsample window, compacted points give the raw averages. */
  lemma CompactedAverages(pts: seq<Point<real>>, step: int)
    requires step > 0 && SortedByTime(pts)
    ensures (var raw, compacted := FoldWindows(pts, step), FoldWindows(CompactPoints(pts, step), step);
             && |compacted| == |raw|
             && forall i :: 0 <= i < |raw| ==> compacted[i].ts == raw[i].ts && Average(compacted[i]) == Average(raw[i]))
  {
    hide FoldWindows, Align;
    if pts != [] {
      CompactedAligned(pts, step);
      FoldOnePerWindow(CompactPoints(pts, step), step);
    } else {
      NoWindows(step);
    }
  }

  /** Downsampling what was already downsampled changes nothing. */
  lemma CompactIdempotent(pts: seq<Point<real>>, step: int)
    requires step > 0 && SortedByTime(pts)
    ensures CompactPoints(CompactPoints(pts, step), step) == CompactPoints(pts, step)
  {
    hide FoldWindows, Align;
    if pts != [] {
      var cs := CompactPoints(pts, step);
      CompactedAligned(pts, step);
      FoldOnePerWindow(cs, step);
      FoldSeries(pts, step);
      assert CompactPoints(cs, step) == cs;
    }
  }

  // ----- ranges -----

  ghost predicate AlignedRange(rng: QueryRange, step: int)
    requires step > 0
  {
    rng.start % step == 0 && rng.end % step == 0
  }

  /** The window start of such a timestamp does not lie after it. */
  predicate RoundsDown(ts: int, step: int)
    requires step > 0
  {
    ts >= 0 || ts % step == 0
  }

  ghost predicate AllRoundDown(pts: seq<Point<real>>, step: int)
    requires step > 0
  {
    forall p :: p in pts ==> RoundsDown(p.ts, step)
  }

  lemma AlignOnGrid(ts: int, step: int)
    requires step > 0 && ts < 0 && ts % step == 0
    ensures Align(ts, step) == ts
  {
    NegatedMultipleOf(ts, step);
  }

  lemma AlignInRange(ts: int, step: int, rng: QueryRange)
    requires step > 0 && RoundsDown(ts, step) && AlignedRange(rng, step)
    ensures rng.Holds(ts) <==> rng.Holds(Align(ts, step))
  {
    if ts < 0 {
      AlignOnGrid(ts, step);
      return;
    }
    AlignNonNegative(ts, step);
    if rng.start >= 0 && rng.start <= ts { AlignAtLeast(ts, step, rng.start); }
    if rng.end >= 0 && rng.end <= ts { AlignAtLeast(ts, step, rng.end); }
  }

  function StartInside(rng: QueryRange): Acc -> bool {
    (a: Acc) => rng.Holds(a.ts)
  }

  /** Cutting an aligned range out of the input cuts it out of the windows. */
  lemma {:induction false} FoldOfRange(pts: seq<Point<real>>, step: int, rng: QueryRange)
    requires step > 0 && SortedByTime(pts) && AlignedRange(rng, step) && AllRoundDown(pts, step)
    ensures FoldWindows(InRange(pts, rng), step) == Filter(StartInside(rng), FoldWindows(pts, step))
    decreases |pts|
  {
    hide Align;
    if pts != [] {
      var before, p := pts[..|pts| - 1], pts[|pts| - 1];
      assert pts == before + [p];
      FoldOfRange(before, step, rng);
      FilterSnoc(InsideOf(rng), before, p);
      AlignInRange(p.ts, step, rng);
      FoldIsGrouping(before, step);
      var accs := FoldWindows(before, step);
      if accs != [] { LastStart(accs, before, step, p); }
      AddInRange(accs, p, step, rng);
      var inside := InRange(before, rng);
      if rng.Holds(p.ts) {
        assert (inside + [p])[..|inside|] == inside;
      }
    }
  }

  lemma AddInRange(accs: seq<Acc>, p: Point<real>, step: int, rng: QueryRange)
    requires step > 0 && AscendingInts(StartsOf(accs))
    requires accs != [] ==> accs[|accs| - 1].ts <= Align(p.ts, step)
    requires rng.Holds(p.ts) <==> rng.Holds(Align(p.ts, step))
    ensures Filter(StartInside(rng), AddPoint(accs, p, step))
         == if rng.Holds(p.ts) then AddPoint(Filter(StartInside(rng), accs), p, step)
            else Filter(StartInside(rng), accs)
  {
    hide Align, Filter, AddPoint, AscendingInts;
    if accs == [] || accs[|accs| - 1].ts != Align(p.ts, step) {
      OpenInRange(accs, p, step, rng);
    } else {
      MergeIntoRange(accs, p, step, rng);
    }
  }

  lemma OpenInRange(accs: seq<Acc>, p: Point<real>, step: int, rng: QueryRange)
    requires step > 0 && AscendingInts(StartsOf(accs))
    requires accs != [] ==> accs[|accs| - 1].ts < Align(p.ts, step)
    requires rng.Holds(p.ts) <==> rng.Holds(Align(p.ts, step))
    ensures Filter(StartInside(rng), AddPoint(accs, p, step))
         == if rng.Holds(p.ts) then AddPoint(Filter(StartInside(rng), accs), p, step)
            else Filter(StartInside(rng), accs)
  {
    hide Align, Filter, AddPoint, AscendingInts;
    AddPointOpens(accs, p, step);
    KeptStartsBelow(accs, rng, Align(p.ts, step));
    FilterSnoc(StartInside(rng), accs, Opened(p, step));
    if rng.Holds(p.ts) { AddPointOpens(Filter(StartInside(rng), accs), p, step); }
  }

  lemma MergeIntoRange(accs: seq<Acc>, p: Point<real>, step: int, rng: QueryRange)
    requires step > 0 && accs != [] && accs[|accs| - 1].ts == Align(p.ts, step)
    requires rng.Holds(p.ts) <==> rng.Holds(Align(p.ts, step))
    ensures Filter(StartInside(rng), AddPoint(accs, p, step))
         == if rng.Holds(p.ts) then AddPoint(Filter(StartInside(rng), accs), p, step)
            else Filter(StartInside(rng), accs)
  {
    hide Align, Merge, Filter, AddPoint;
    var n := |accs| - 1;
    var kept := Filter(StartInside(rng), accs);
    AddPointMerges(accs, p, step);
    MergeStart(accs[n], p);
    MergeInRange(accs, Merge(accs[n], p), rng);
    if rng.Holds(p.ts) { AddPointMerges(kept, p, step); }
  }

  function Opened(p: Point<real>, step: int): Acc
    requires step > 0
  {
    Acc(Align(p.ts, step), p.value, p.value, p.value, 1)
  }

  lemma AddPointOpens(accs: seq<Acc>, p: Point<real>, step: int)
    requires step > 0 && (accs == [] || accs[|accs| - 1].ts != Align(p.ts, step))
    ensures AddPoint(accs, p, step) == accs + [Opened(p, step)] && Opened(p, step).ts == Align(p.ts, step)
  {
  }

  lemma AddPointMerges(accs: seq<Acc>, p: Point<real>, step: int)
    requires step > 0 && accs != [] && accs[|accs| - 1].ts == Align(p.ts, step)
    ensures AddPoint(accs, p, step) == accs[|accs| - 1 := Merge(accs[|accs| - 1], p)]
    ensures AddPoint(accs, p, step) == accs[..|accs| - 1] + [Merge(accs[|accs| - 1], p)]
  {
  }

  lemma MergeStart(a: Acc, p: Point<real>)
    ensures Merge(a, p).ts == a.ts
  {
  }

  lemma KeptStartsBelow(accs: seq<Acc>, rng: QueryRange, start: int)
    requires AscendingInts(StartsOf(accs)) && (accs != [] ==> accs[|accs| - 1].ts < start)
    ensures (var kept := Filter(StartInside(rng), accs); kept == [] || kept[|kept| - 1].ts < start)
  {
    hide Filter;
    var keep := StartInside(rng);
    var kept := Filter(keep, accs);
    if kept != [] {
      var a := kept[|kept| - 1];
      FilterMember(keep, accs, a);
      var i :| 0 <= i < |accs| && accs[i] == a;
      assert StartsOf(accs)[i] <= StartsOf(accs)[|accs| - 1];
    }
  }

  /** Replacing the last accumulator by one with the same start. */
  lemma MergeInRange(accs: seq<Acc>, merged: Acc, rng: QueryRange)
    requires accs != [] && merged.ts == accs[|accs| - 1].ts
    ensures (var keep, n := StartInside(rng), |accs| - 1;
             var kept := Filter(keep, accs);
             if rng.Holds(merged.ts) then
               && kept != [] && kept[|kept| - 1] == accs[n]
               && Filter(keep, accs[n := merged]) == kept[..|kept| - 1] + [merged]
             else Filter(keep, accs[n := merged]) == kept)
  {
    hide Filter;
    var keep, n := StartInside(rng), |accs| - 1;
    assert accs == accs[..n] + [accs[n]];
    assert accs[n := merged] == accs[..n] + [merged];
    FilterSnoc(keep, accs[..n], accs[n]);
    FilterSnoc(keep, accs[..n], merged);
  }

  lemma AveragedSnoc(accs: seq<Acc>, a: Acc, series: nat)
    ensures Averaged(accs + [a], series) == Averaged(accs, series) + [PointOf(a, series)]
  {
  }

  lemma {:induction false} AveragedOfRange(accs: seq<Acc>, series: nat, rng: QueryRange)
    ensures InRange(Averaged(accs, series), rng) == Averaged(Filter(StartInside(rng), accs), series)
    decreases |accs|
  {
    hide Averaged, PointOf;
    if accs == [] {
      AveragedNone(series, rng);
    } else {
      var n := |accs| - 1;
      AveragedOfRange(accs[..n], series, rng);
      assert accs == accs[..n] + [accs[n]];
      AveragedSnoc(accs[..n], accs[n], series);
      AveragedSnoc(Filter(StartInside(rng), accs[..n]), accs[n], series);
      FilterSnoc(InsideOf(rng), Averaged(accs[..n], series), PointOf(accs[n], series));
      FilterSnoc(StartInside(rng), accs[..n], accs[n]);
      PointOfTime(accs[n], series);
    }
  }

  lemma AveragedNone(series: nat, rng: QueryRange)
    ensures Averaged([], series) == [] && InRange(Averaged([], series), rng) == []
  {
  }

  lemma PointOfTime(a: Acc, series: nat)
    ensures PointOf(a, series).ts == a.ts
  {
  }

  /** Reading an aligned range of compacted points is compacting the range. */
  lemma CompactOfRange(pts: seq<Point<real>>, step: int, rng: QueryRange, series: nat)
    requires step > 0 && SortedByTime(pts) && AlignedRange(rng, step)
    requires AllRoundDown(pts, step) && forall p :: p in pts ==> p.series == series
    ensures InRange(CompactPoints(pts, step), rng) == CompactPoints(InRange(pts, rng), step)
  {
    hide FoldWindows;
    FoldOfRange(pts, step, rng);
    var inside := InRange(pts, rng);
    if inside != [] {
      FilterMember(InsideOf(rng), pts, inside[0]);
    } else {
      NoWindows(step);
    }
    if pts != [] {
      AveragedOfRange(FoldWindows(pts, step), series, rng);
    }
  }

  /** The window start of a negative timestamp off the grid lies after it. */
  lemma AlignRoundsUp(ts: int, step: int)
    requires step > 0 && !RoundsDown(ts, step)
    ensures ts < Align(ts, step) < ts + step && Align(ts, step) % step == 0
  {
    AlignNonNegative(-ts, step);
    AlignNegated(-ts, step);
    NegatedMultipleOf(Align(ts, step), step);
    NegatedMultipleOf(ts, step);
  }

  /** Reading compacted points is compacting what is read, over every aligned range, exactly when
      no negative timestamp lies off the window grid: Go's remainder moves those forward. */
  lemma CompactOfRangeIff(pts: seq<Point<real>>, step: int, series: nat)
    requires step > 0 && SortedByTime(pts) && forall p :: p in pts ==> p.series == series
    ensures (forall rng :: AlignedRange(rng, step) ==>
                             InRange(CompactPoints(pts, step), rng) == CompactPoints(InRange(pts, rng), step))
       <==> AllRoundDown(pts, step)
  {
    hide CompactPoints, Align;
    if AllRoundDown(pts, step) {
      forall rng | AlignedRange(rng, step)
        ensures InRange(CompactPoints(pts, step), rng) == CompactPoints(InRange(pts, rng), step)
      {
        CompactOfRange(pts, step, rng, series);
      }
    } else {
      var p :| p in pts && !RoundsDown(p.ts, step);
      AlignRoundsUp(p.ts, step);
      var w := Align(p.ts, step);
      var rng := QueryRange(w - step, w);
      StepBack(w, step);
      var inside := InRange(pts, rng);
      FilterMember(InsideOf(rng), pts, p);
      InRangeSorted(pts, rng);
      var c := CompactedHas(inside, step, p);
      if InRange(CompactPoints(pts, step), rng) == CompactPoints(inside, step) {
        FilterMember(InsideOf(rng), CompactPoints(pts, step), c);
      }
    }
  }

  lemma StepBack(w: int, step: int)
    requires step > 0 && w % step == 0
    ensures (w - step) % step == 0
  {
    DivideBounds(w, step);
    MultipleOf(w / step - 1, step);
  }

  /** Every point's window is among the compacted ones. */
  lemma CompactedHas(pts: seq<Point<real>>, step: int, p: Point<real>) returns (c: Point<real>)
    requires step > 0 && SortedByTime(pts) && p in pts
    ensures c in CompactPoints(pts, step) && c.ts == Align(p.ts, step)
  {
    hide FoldWindows, Align;
    var accs := FoldWindows(pts, step);
    FoldIsGrouping(pts, step);
    var i :| 0 <= i < |accs| && StartsOf(accs)[i] == Align(p.ts, step);
    c := CompactPoints(pts, step)[i];
  }

  lemma {:induction false} InRangeSorted(pts: seq<Point<real>>, rng: QueryRange)
    requires SortedByTime(pts)
    ensures SortedByTime(InRange(pts, rng))
    decreases |pts|
  {
    if pts != [] {
      var before, p := pts[..|pts| - 1], pts[|pts| - 1];
      assert pts == before + [p];
      InRangeSorted(before, rng);
      FilterSnoc(InsideOf(rng), before, p);
      forall q | q in InRange(before, rng) ensures q.ts <= p.ts { FilterMember(InsideOf(rng), before, q); }
    }
  }

  /** A query reports the same windows from compacted points as from raw ones, each within the raw
      bounds; at exactly the downsample window the averages are the same. */
  ghost predicate QueryAgrees(pts: seq<Point<real>>, fine: int, coarse: int, rng: QueryRange)
    requires fine > 0 && coarse > 0
  {
    var raw := FoldWindows(InRange(pts, rng), coarse);
    var compacted := FoldWindows(InRange(CompactPoints(pts, fine), rng), coarse);
    && |compacted| == |raw|
    && (forall i :: 0 <= i < |raw| ==> Coarsens(compacted[i], raw[i]))
    && (coarse == fine ==> forall i :: 0 <= i < |raw| ==> Average(compacted[i]) == Average(raw[i]))
  }

  /** Every query over an aligned range, with a step that is a multiple of the downsample window,
      agrees, exactly when no negative timestamp lies off the window grid. */
  lemma CompactedQuery(pts: seq<Point<real>>, fine: int, series: nat)
    requires fine > 0 && SortedByTime(pts) && forall p :: p in pts ==> p.series == series
    ensures (forall coarse, rng :: coarse > 0 && coarse % fine == 0 && AlignedRange(rng, fine) ==>
                                     QueryAgrees(pts, fine, coarse, rng))
       <==> AllRoundDown(pts, fine)
  {
    hide QueryAgrees, Align;
    if AllRoundDown(pts, fine) {
      forall coarse, rng | coarse > 0 && coarse % fine == 0 && AlignedRange(rng, fine)
        ensures QueryAgrees(pts, fine, coarse, rng)
      {
        AlignedQuery(pts, fine, coarse, rng, series);
      }
    } else {
      var p :| p in pts && !RoundsDown(p.ts, fine);
      MovedQuery(pts, fine, p);
    }
  }

  lemma AlignedQuery(pts: seq<Point<real>>, fine: int, coarse: int, rng: QueryRange, series: nat)
    requires fine > 0 && coarse > 0 && coarse % fine == 0
    requires SortedByTime(pts) && AlignedRange(rng, fine)
    requires AllRoundDown(pts, fine) && forall p :: p in pts ==> p.series == series
    ensures QueryAgrees(pts, fine, coarse, rng)
  {
    hide FoldWindows, Coarsens;
    CompactOfRange(pts, fine, rng, series);
    var inside := InRange(pts, rng);
    InRangeSorted(pts, rng);
    CompactedAggregates(inside, fine, coarse);
    CompactedAverages(inside, fine);
  }

  /** The range that ends where a point's rounded-up window starts has that window in the raw answer
      and not in the compacted one. */
  lemma MovedQuery(pts: seq<Point<real>>, fine: int, p: Point<real>)
    requires fine > 0 && SortedByTime(pts) && p in pts && !RoundsDown(p.ts, fine)
    ensures (var w := Align(p.ts, fine); AlignedRange(QueryRange(w - fine, w), fine))
    ensures !QueryAgrees(pts, fine, fine, QueryRange(Align(p.ts, fine) - fine, Align(p.ts, fine)))
    ensures fine % fine == 0
  {
    hide FoldWindows, Align, CompactPoints, Average, InRange;
    AlignRoundsUp(p.ts, fine);
    var w := Align(p.ts, fine);
    var rng := QueryRange(w - fine, w);
    StepBack(w, fine);
    WindowRead(pts, fine, rng, p);
    WindowMissing(pts, fine, rng, w);
    var raw := FoldWindows(InRange(pts, rng), fine);
    var compacted := FoldWindows(InRange(CompactPoints(pts, fine), rng), fine);
    var i :| 0 <= i < |raw| && StartsOf(raw)[i] == w;
    assert |compacted| == |raw| ==> StartsOf(compacted)[i] in StartsOf(compacted);
  }

  lemma WindowRead(pts: seq<Point<real>>, step: int, rng: QueryRange, p: Point<real>)
    requires step > 0 && SortedByTime(pts) && p in pts && rng.Holds(p.ts)
    ensures Align(p.ts, step) in StartsOf(FoldWindows(InRange(pts, rng), step))
  {
    hide FoldWindows, Align;
    var inside := InRange(pts, rng);
    FilterMember(InsideOf(rng), pts, p);
    InRangeSorted(pts, rng);
    FoldIsGrouping(inside, step);
    StartsAre(FoldWindows(inside, step), inside, step, Align(p.ts, step));
  }

  lemma WindowMissing(pts: seq<Point<real>>, step: int, rng: QueryRange, w: int)
    requires step > 0 && SortedByTime(pts) && rng.end <= w
    ensures w !in StartsOf(FoldWindows(InRange(CompactPoints(pts, step), rng), step))
  {
    hide FoldWindows, Align, CompactPoints;
    var cs := CompactPoints(pts, step);
    var inside := InRange(cs, rng);
    CompactedAligned(pts, step);
    InRangeSorted(cs, rng);
    FoldIsGrouping(inside, step);
    StartsAre(FoldWindows(inside, step), inside, step, w);
    forall c | c in inside ensures Align(c.ts, step) != w { FilterMember(InsideOf(rng), cs, c); }
  }

  // ----- the loop in place -----

  /** `aggregateWindow`'s accumulator. */
  datatype Window = Window(ts: int, sum: real, count: nat)

  function Totals(accs: seq<Acc>): (out: seq<Window>)
    ensures |out| == |accs|
    ensures forall i :: 0 <= i < |accs| ==> out[i] == Window(accs[i].ts, accs[i].sum, accs[i].count)
  {
    seq(|accs|, i requires 0 <= i < |accs| => Window(accs[i].ts, accs[i].sum, accs[i].count))
  }

  method AggregateWindow(pts: seq<Point<real>>, step: int) returns (out: seq<Point<real>>)
    requires step > 0
    ensures out == CompactPoints(pts, step)
  {
    if |pts| == 0 {
      return [];
    }
    hide Align;
    var windows: seq<Window> := [];
    for i := 0 to |pts|
      invariant windows == Totals(FoldWindows(pts[..i], step))
    {
      var p := pts[i];
      assert pts[..i + 1][..i] == pts[..i];
      var start := Align(p.ts, step);
      if |windows| == 0 || windows[|windows| - 1].ts != start {
        windows := windows + [Window(start, p.value, 1)];
      } else {
        var last := windows[|windows| - 1];
        windows := windows[|windows| - 1 := Window(start, last.sum + p.value, last.count + 1)];
      }
    }
    assert pts[..|pts|] == pts;
    FoldCounts(pts, step);
    out := [];
    for i := 0 to |windows|
      invariant out == CompactPoints(pts, step)[..i]
    {
      var w := windows[i];
      out := out + [Point(w.ts, w.sum / w.count as real, pts[0].series)];
    }
  }

  lemma {:induction false} FoldCounts(pts: seq<Point<real>>, step: int)
    requires step > 0
    ensures forall i :: 0 <= i < |FoldWindows(pts, step)| ==> FoldWindows(pts, step)[i].count > 0
    decreases |pts|
  {
    if pts != [] {
      FoldCounts(pts[..|pts| - 1], step);
    }
  }
}
