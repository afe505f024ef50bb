/** The one-pass window accumulator shared by queries and downsampling, over real values. */
module Aggregation {
  import opened Model
  import opened Seqs

  datatype Acc = Acc(ts: int, sum: real, min: real, max: real, count: nat)

  // ----- the loop, as a fold -----

  function Merge(a: Acc, p: Point<real>): Acc {
    Acc(a.ts, a.sum + p.value,
        if p.value < a.min then p.value else a.min,
        if p.value > a.max then p.value else a.max,
        a.count + 1)
  }

  function AddPoint(accs: seq<Acc>, p: Point<real>, step: int): seq<Acc>
    requires step > 0
  {
    var start, n := Align(p.ts, step), |accs| - 1;
    if accs == [] || accs[n].ts != start then accs + [Acc(start, p.value, p.value, p.value, 1)]
    else
      accs[n := Merge(accs[n], p)]
  }

  function FoldWindows(pts: seq<Point<real>>, step: int): seq<Acc>
    requires step > 0
  {
    if pts == [] then [] else AddPoint(FoldWindows(pts[..|pts| - 1], step), pts[|pts| - 1], step)
  }

  // ----- group by window, as the reference -----

  function Sum(pts: seq<Point<real>>): real {
    if pts == [] then 0.0 else Sum(pts[..|pts| - 1]) + pts[|pts| - 1].value
  }

  ghost predicate IsMin(m: real, pts: seq<Point<real>>) {
    (exists p :: p in pts && p.value == m) && forall p :: p in pts ==> m <= p.value
  }

  ghost predicate IsMax(m: real, pts: seq<Point<real>>) {
    (exists p :: p in pts && p.value == m) && forall p :: p in pts ==> p.value <= m
  }

  function InWindow(step: int, w: int): Point<real> -> bool
    requires step > 0
  {
    (p: Point<real>) => Align(p.ts, step) == w
  }

  /** All points of one window. */
  function Group(pts: seq<Point<real>>, step: int, w: int): seq<Point<real>>
    requires step > 0
  {
    Filter(InWindow(step, w), pts)
  }

  /** The accumulator holds the exact sum, minimum, maximum and count of a group. */
  ghost predicate Summarizes(a: Acc, g: seq<Point<real>>) {
    g != [] && a.sum == Sum(g) && IsMin(a.min, g) && IsMax(a.max, g) && a.count == |g|
  }

  function StartsOf(accs: seq<Acc>): (starts: seq<int>)
    ensures |starts| == |accs|
    ensures forall i :: 0 <= i < |accs| ==> starts[i] == accs[i].ts
  {
    seq(|accs|, i requires 0 <= i < |accs| => accs[i].ts)
  }

  /** Exactly one accumulator per non-empty window, in ascending order, each summarizing all the
      points of its window wherever they stand in the input. */
  ghost predicate IsGrouping(accs: seq<Acc>, pts: seq<Point<real>>, step: int)
    requires step > 0
  {
    && AscendingInts(StartsOf(accs))
    && (forall i :: 0 <= i < |accs| ==> Summarizes(accs[i], Group(pts, step, accs[i].ts)))
    && (forall p :: p in pts ==> Align(p.ts, step) in StartsOf(accs))
  }

  lemma GroupMember(pts: seq<Point<real>>, step: int, w: int, p: Point<real>)
    requires step > 0
    ensures p in Group(pts, step, w) <==> p in pts && Align(p.ts, step) == w
  {
    FilterMember(InWindow(step, w), pts, p);
  }

  lemma GroupSnoc(pts: seq<Point<real>>, p: Point<real>, step: int, w: int)
    requires step > 0
    ensures Group(pts + [p], step, w) == if Align(p.ts, step) == w then Group(pts, step, w) + [p]
                                         else Group(pts, step, w)
  {
    FilterConcat(InWindow(step, w), pts, [p]);
    FilterOne(InWindow(step, w), p);
  }

  lemma SumSnoc(g: seq<Point<real>>, p: Point<real>)
    ensures Sum(g + [p]) == Sum(g) + p.value
  {
    assert (g + [p])[..|g|] == g;
  }

  lemma SummarizesOne(a: Acc, p: Point<real>)
    requires a == Acc(a.ts, p.value, p.value, p.value, 1)
    ensures Summarizes(a, [p])
  {
    SumSnoc([], p);
    assert [] + [p] == [p];
    assert p in [p];
  }

  lemma SummarizesSnoc(a: Acc, g: seq<Point<real>>, p: Point<real>, b: Acc)
    requires Summarizes(a, g)
    requires b.sum == a.sum + p.value && b.count == a.count + 1
    requires b.min == (if p.value < a.min then p.value else a.min)
    requires b.max == (if p.value > a.max then p.value else a.max)
    ensures Summarizes(b, g + [p])
  {
    SumSnoc(g, p);
    var lo :| lo in g && lo.value == a.min;
    var hi :| hi in g && hi.value == a.max;
    assert lo in g + [p] && hi in g + [p] && p in g + [p];
  }

  /** The newest accumulator's window starts at or before the next point's, in sorted input. */
  lemma LastStart(accs: seq<Acc>, pts: seq<Point<real>>, step: int, p: Point<real>)
    requires step > 0 && accs != [] && IsGrouping(accs, pts, step)
    requires forall q :: q in pts ==> q.ts <= p.ts
    ensures accs[|accs| - 1].ts <= Align(p.ts, step)
  {
    var a := accs[|accs| - 1];
    var q := Group(pts, step, a.ts)[0];
    GroupMember(pts, step, a.ts, q);
    AlignMonotone(q.ts, p.ts, step);
  }

  lemma AddPointGroups(accs: seq<Acc>, pts: seq<Point<real>>, p: Point<real>, step: int)
    requires step > 0 && IsGrouping(accs, pts, step)
    requires forall q :: q in pts ==> q.ts <= p.ts
    ensures IsGrouping(AddPoint(accs, p, step), pts + [p], step)
  {
    hide Summarizes, Align, Group;
    var out, start, n := AddPoint(accs, p, step), Align(p.ts, step), |accs| - 1;
    if accs != [] { LastStart(accs, pts, step, p); }
    if accs == [] || accs[n].ts != start {
      NewWindowIsEmpty(accs, pts, step, start);
      GroupSnoc(pts, p, step, start);
      SummarizesOne(out[|accs|], p);
      assert [] + [p] == [p];
      forall i | 0 <= i < |accs| ensures Summarizes(out[i], Group(pts + [p], step, out[i].ts)) {
        GroupSnoc(pts, p, step, out[i].ts);
      }
      assert out[|accs|].ts == start;
    } else {
      GroupSnoc(pts, p, step, start);
      SummarizesSnoc(accs[n], Group(pts, step, start), p, out[n]);
      forall i | 0 <= i < n ensures Summarizes(out[i], Group(pts + [p], step, out[i].ts)) {
        GroupSnoc(pts, p, step, out[i].ts);
      }
      assert out[n].ts == start;
    }
    forall q | q in pts + [p] ensures Align(q.ts, step) in StartsOf(out) {
      if q in pts {
        var i :| 0 <= i < |accs| && StartsOf(accs)[i] == Align(q.ts, step);
        assert StartsOf(out)[i] == StartsOf(accs)[i];
      } else {
        assert StartsOf(out)[|out| - 1] == start;
      }
    }
  }

  lemma NewWindowIsEmpty(accs: seq<Acc>, pts: seq<Point<real>>, step: int, start: int)
    requires step > 0 && IsGrouping(accs, pts, step)
    requires forall i :: 0 <= i < |accs| ==> accs[i].ts != start
    ensures Group(pts, step, start) == []
  {
    if Group(pts, step, start) != [] {
      var q := Group(pts, step, start)[0];
      GroupMember(pts, step, start, q);
    }
  }

  /** On any input sorted by time, the one-pass loop is group-by-window. */
  lemma {:induction false} FoldIsGrouping(pts: seq<Point<real>>, step: int)
    requires step > 0 && SortedByTime(pts)
    ensures IsGrouping(FoldWindows(pts, step), pts, step)
    decreases |pts|
  {
    if pts != [] {
      var before, p := pts[..|pts| - 1], pts[|pts| - 1];
      FoldIsGrouping(before, step);
      assert before + [p] == pts;
      AddPointGroups(FoldWindows(before, step), before, p, step);
    }
  }

  function Counts(accs: seq<Acc>): nat {
    if accs == [] then 0 else Counts(accs[..|accs| - 1]) + accs[|accs| - 1].count
  }

  /** No point is dropped or counted twice, whatever the order of the input. */
  lemma {:induction false} CountsAddUp(pts: seq<Point<real>>, step: int)
    requires step > 0
    ensures Counts(FoldWindows(pts, step)) == |pts|
    decreases |pts|
  {
    if pts != [] {
      CountsAddUp(pts[..|pts| - 1], step);
      var accs := FoldWindows(pts[..|pts| - 1], step);
      var out := FoldWindows(pts, step);
      assert out[..|out| - 1] == if |out| > |accs| then accs else accs[..|accs| - 1];
    }
  }

  // ----- dependence on the multiset only -----

  lemma {:induction false} FilterMultiset<T>(keep: T -> bool, xs: seq<T>, x: T)
    ensures multiset(Filter(keep, xs))[x] == if keep(x) then multiset(xs)[x] else 0
  {
    if xs != [] {
      FilterMultiset(keep, xs[1..], x);
      assert xs == [xs[0]] + xs[1..];
      FilterOne(keep, xs[0]);
      FilterConcat(keep, [xs[0]], xs[1..]);
    }
  }

  lemma {:induction false} SumConcat(a: seq<Point<real>>, b: seq<Point<real>>)
    ensures Sum(a + b) == Sum(a) + Sum(b)
    decreases |b|
  {
    if b == [] {
      assert a + b == a;
    } else {
      var n := |b| - 1;
      SumConcat(a, b[..n]);
      assert a + b == (a + b[..n]) + [b[n]];
      SumSnoc(a + b[..n], b[n]);
    }
  }

  lemma SumRemove(g: seq<Point<real>>, i: nat)
    requires i < |g|
    ensures Sum(g) == Sum(g[..i] + g[i + 1..]) + g[i].value
  {
    SumConcat(g[..i], g[i + 1..]);
    SumConcat(g[..i] + [g[i]], g[i + 1..]);
    SumSnoc(g[..i], g[i]);
    assert g == g[..i] + [g[i]] + g[i + 1..];
  }

  lemma {:induction false} SumPermutes(a: seq<Point<real>>, b: seq<Point<real>>)
    requires multiset(a) == multiset(b)
    ensures Sum(a) == Sum(b)
    decreases |a|
  {
    assert |a| == |multiset(a)| == |multiset(b)| == |b|;
    if a != [] {
      var n := |a| - 1;
      assert a[n] in multiset(a);
      var i :| 0 <= i < |b| && b[i] == a[n];
      SumRemove(b, i);
      var b' := b[..i] + b[i + 1..];
      assert a == a[..n] + [a[n]];
      assert b == b[..i] + [b[i]] + b[i + 1..];
      assert multiset(a[..n]) == multiset(a) - multiset{a[n]};
      assert multiset(b') == multiset(b) - multiset{b[i]};
      SumPermutes(a[..n], b');
    }
  }

  lemma MembersAgree<T>(a: seq<T>, b: seq<T>, x: T)
    requires multiset(a) == multiset(b)
    ensures x in a <==> x in b
  {
    assert x in a <==> x in multiset(a);
    assert x in b <==> x in multiset(b);
  }

  lemma SummaryUnique(a: Acc, b: Acc, g: seq<Point<real>>, h: seq<Point<real>>)
    requires Summarizes(a, g) && Summarizes(b, h) && multiset(g) == multiset(h) && a.ts == b.ts
    ensures a == b
  {
    SumPermutes(g, h);
    assert |g| == |multiset(g)| == |multiset(h)| == |h|;
    forall p ensures p in g <==> p in h { MembersAgree(g, h, p); }
  }

  lemma GroupPermutes(p: seq<Point<real>>, q: seq<Point<real>>, step: int, w: int)
    requires step > 0 && multiset(p) == multiset(q)
    ensures multiset(Group(p, step, w)) == multiset(Group(q, step, w))
  {
    forall x ensures multiset(Group(p, step, w))[x] == multiset(Group(q, step, w))[x] {
      FilterMultiset(InWindow(step, w), p, x);
      FilterMultiset(InWindow(step, w), q, x);
    }
  }

  lemma GroupingStart(accs: seq<Acc>, pts: seq<Point<real>>, step: int, i: nat) returns (p: Point<real>)
    requires step > 0 && IsGrouping(accs, pts, step) && i < |accs|
    ensures p in pts && Align(p.ts, step) == accs[i].ts
  {
    p := Group(pts, step, accs[i].ts)[0];
    GroupMember(pts, step, accs[i].ts, p);
  }

  lemma StartsCarryOver(a: seq<Acc>, b: seq<Acc>, p: seq<Point<real>>, q: seq<Point<real>>, step: int, w: int)
    requires step > 0 && IsGrouping(a, p, step) && IsGrouping(b, q, step) && multiset(p) == multiset(q)
    ensures w in StartsOf(a) ==> w in StartsOf(b)
  {
    if w in StartsOf(a) {
      var i :| 0 <= i < |a| && StartsOf(a)[i] == w;
      var x := GroupingStart(a, p, step, i);
      MembersAgree(p, q, x);
    }
  }

  /** A grouping is determined by the multiset of points. */
  lemma GroupingUnique(a: seq<Acc>, b: seq<Acc>, p: seq<Point<real>>, q: seq<Point<real>>, step: int)
    requires step > 0 && IsGrouping(a, p, step) && IsGrouping(b, q, step) && multiset(p) == multiset(q)
    ensures a == b
  {
    hide Summarizes, Group;
    forall w ensures w in StartsOf(a) <==> w in StartsOf(b) {
      StartsCarryOver(a, b, p, q, step, w);
      StartsCarryOver(b, a, q, p, step, w);
    }
    AscendingIntsUnique(StartsOf(a), StartsOf(b));
    assert forall i :: 0 <= i < |a| ==> StartsOf(a)[i] == StartsOf(b)[i];
    forall i | 0 <= i < |a| ensures a[i] == b[i] {
      GroupPermutes(p, q, step, a[i].ts);
      SummaryUnique(a[i], b[i], Group(p, step, a[i].ts), Group(q, step, b[i].ts));
    }
  }

  /** Two sorted inputs with the same points aggregate to the same windows, however ties fall. */
  lemma FoldDependsOnMultiset(p: seq<Point<real>>, q: seq<Point<real>>, step: int)
    requires step > 0 && SortedByTime(p) && SortedByTime(q) && multiset(p) == multiset(q)
    ensures FoldWindows(p, step) == FoldWindows(q, step)
  {
    FoldIsGrouping(p, step);
    FoldIsGrouping(q, step);
    GroupingUnique(FoldWindows(p, step), FoldWindows(q, step), p, q, step);
  }
}
