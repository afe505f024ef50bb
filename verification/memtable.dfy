/** Binary search by timestamp, as `sort.Search` and `lowerBound` do it. */
module TimeSearch {
  import opened Model
  import opened Seqs

  /** The first index whose timestamp is at or after ts, by looking at every point. */
  function LowerBoundOf<V>(pts: seq<Point<V>>, ts: int): (i: nat)
    ensures i <= |pts|
    ensures i < |pts| ==> pts[i].ts >= ts
    ensures forall j :: 0 <= j < i ==> pts[j].ts < ts
  {
    if pts == [] || pts[0].ts >= ts then 0 else 1 + LowerBoundOf(pts[1..], ts)
  }

  lemma LowerBoundUnique<V>(pts: seq<Point<V>>, ts: int, i: nat)
    requires i <= |pts| && (i < |pts| ==> pts[i].ts >= ts)
    requires forall j :: 0 <= j < i ==> pts[j].ts < ts
    ensures LowerBoundOf(pts, ts) == i
  {
  }

  /** Halving finds the same index when the points are in order. */
  method LowerBound<V>(pts: seq<Point<V>>, ts: int) returns (lo: nat)
    requires SortedByTime(pts)
    ensures lo == LowerBoundOf(pts, ts)
  {
    var hi := |pts|;
    lo := 0;
    while lo < hi
      invariant 0 <= lo <= hi <= |pts|
      invariant forall j :: 0 <= j < lo ==> pts[j].ts < ts
      invariant forall j :: hi <= j < |pts| ==> pts[j].ts >= ts
    {
      var mid := (lo + hi) / 2;
      if pts[mid].ts < ts {
        lo := mid + 1;
      } else {
        hi := mid;
      }
    }
    LowerBoundUnique(pts, ts, lo);
  }

  lemma InRangeSlice<V>(pts: seq<Point<V>>, lo: nat, hi: nat, rng: QueryRange)
    requires lo <= hi <= |pts|
    requires forall i :: 0 <= i < lo ==> pts[i].ts < rng.start
    requires forall i :: lo <= i < hi ==> rng.Holds(pts[i].ts)
    requires forall i :: hi <= i < |pts| ==> pts[i].ts >= rng.end
    ensures InRange(pts, rng) == pts[lo..hi]
  {
    hide Filter;
    assert pts[..hi] == pts[..lo] + pts[lo..hi];
    assert pts == pts[..hi] + pts[hi..];
    FilterConcat(InsideOf(rng), pts[..lo], pts[lo..hi]);
    FilterConcat(InsideOf(rng), pts[..hi], pts[hi..]);
    FilterNone(InsideOf(rng), pts[..lo]);
    FilterAll(InsideOf(rng), pts[lo..hi]);
    FilterNone(InsideOf(rng), pts[hi..]);
  }

  /** The two searches do not cross: the range is upright, or no point lies between its bounds. */
  ghost predicate Sliceable<V>(pts: seq<Point<V>>, rng: QueryRange) {
    rng.start <= rng.end || forall p :: p in pts ==> p.ts < rng.end || rng.start <= p.ts
  }

  /** Slicing between the two bounds is filtering. */
  lemma SliceIsFilter<V>(pts: seq<Point<V>>, rng: QueryRange)
    requires SortedByTime(pts) && Sliceable(pts, rng)
    ensures LowerBoundOf(pts, rng.start) <= LowerBoundOf(pts, rng.end)
    ensures pts[LowerBoundOf(pts, rng.start)..LowerBoundOf(pts, rng.end)] == InRange(pts, rng)
  {
    hide LowerBoundOf, Filter;
    var lo, hi := LowerBoundOf(pts, rng.start), LowerBoundOf(pts, rng.end);
    forall i | lo <= i < |pts| ensures pts[i].ts >= rng.start { assert pts[lo].ts <= pts[i].ts; }
    forall i | hi <= i < |pts| ensures pts[i].ts >= rng.end { assert pts[hi].ts <= pts[i].ts; }
    if rng.end < rng.start {
      if hi < |pts| { assert pts[hi] in pts; }
      if lo < |pts| { assert pts[lo] in pts; }
      forall p | p in pts ensures !rng.Holds(p.ts) {}
      FilterNone(InsideOf(rng), pts);
    } else {
      InRangeSlice(pts, lo, hi, rng);
    }
  }

  /** The slice between the bounds is a valid one exactly then; otherwise the source panics. */
  lemma InvertedRange<V>(pts: seq<Point<V>>, rng: QueryRange)
    requires SortedByTime(pts)
    ensures LowerBoundOf(pts, rng.start) <= LowerBoundOf(pts, rng.end) <==> Sliceable(pts, rng)
  {
    var lo, hi := LowerBoundOf(pts, rng.start), LowerBoundOf(pts, rng.end);
    if hi < lo {
      assert pts[hi] in pts;
    }
    if Sliceable(pts, rng) { SliceIsFilter(pts, rng); }
  }

  /** The two-sided search both range reads make. */
  method Slice<V>(pts: seq<Point<V>>, rng: QueryRange) returns (out: seq<Point<V>>)
    requires SortedByTime(pts) && Sliceable(pts, rng)
    ensures out == InRange(pts, rng)
  {
    var lo := LowerBound(pts, rng.start);
    var hi := LowerBound(pts, rng.end);
    SliceIsFilter(pts, rng);
    out := pts[lo..hi];
  }
}

/** The memtable: a sorted point list per series, with in-place upsert. */
module Memtable {
  import opened Model
  import opened TimeSearch

  /** The live table as a value: the current snapshot and the count of writes to it. */
  datatype Mem<V> = Mem(byID: Table<V>, minTS: int, maxTS: int, points: nat)

  function EmptyMem<V>(): Mem<V> {
    Mem(map[], 0, 0, 0)
  }

  /** Overwrites the point at the same timestamp, or inserts at the sorted position. */
  function Upsert<V>(pts: seq<Point<V>>, p: Point<V>): seq<Point<V>> {
    var i := LowerBoundOf(pts, p.ts);
    if i < |pts| && pts[i].ts == p.ts then pts[i := pts[i].(value := p.value)]
    else pts[..i] + [p] + pts[i..]
  }

  /** `Write`. Overwriting a point counts as a write too. */
  function MemWrite<V>(m: Mem<V>, p: Point<V>): Mem<V> {
    Mem(m.byID[p.series := Upsert(PointsOf(m.byID, p.series), p)],
        if m.points == 0 || p.ts < m.minTS then p.ts else m.minTS,
        if m.points == 0 || p.ts > m.maxTS then p.ts else m.maxTS,
        m.points + 1)
  }

  /** The table after writing all of `ps` in order. */
  function MemWriteAll<V>(m: Mem<V>, ps: seq<Point<V>>): Mem<V> {
    if ps == [] then m else MemWrite(MemWriteAll(m, ps[..|ps| - 1]), ps[|ps| - 1])
  }

  // ----- upsert refines a map update -----

  /** The points of one series as a map from timestamp to value. */
  function AsMap<V>(pts: seq<Point<V>>): map<int, V>
    requires Ascending(pts)
  {
    map i {:trigger pts[i]} | 0 <= i < |pts| :: pts[i].ts := pts[i].value
  }

  lemma UpsertAscends<V>(pts: seq<Point<V>>, p: Point<V>)
    requires Ascending(pts)
    ensures Ascending(Upsert(pts, p))
  {
  }

  lemma AsMapAt<V>(pts: seq<Point<V>>, i: nat)
    requires Ascending(pts) && i < |pts|
    ensures pts[i].ts in AsMap(pts) && AsMap(pts)[pts[i].ts] == pts[i].value
  {
  }

  /** Every point of the result comes from the old list or is the new one. */
  lemma UpsertMembers<V>(pts: seq<Point<V>>, p: Point<V>, i: nat)
    requires Ascending(pts) && i < |Upsert(pts, p)|
    ensures (var q := Upsert(pts, p)[i];
             if q.ts == p.ts then q.value == p.value else q in pts)
  {
  }

  lemma UpsertKeeps<V>(pts: seq<Point<V>>, p: Point<V>, i: nat)
    requires Ascending(pts) && i < |pts| && pts[i].ts != p.ts
    ensures pts[i] in Upsert(pts, p)
  {
    var k := LowerBoundOf(pts, p.ts);
    var u := Upsert(pts, p);
    if |u| == |pts| {
      assert u[i] == pts[i];
    } else if i < k {
      assert u[i] == pts[i];
    } else {
      assert u[i + 1] == pts[i];
    }
  }

  lemma UpsertHas<V>(pts: seq<Point<V>>, p: Point<V>) returns (i: nat)
    requires Ascending(pts)
    ensures i < |Upsert(pts, p)| && Upsert(pts, p)[i].ts == p.ts && Upsert(pts, p)[i].value == p.value
  {
    i := LowerBoundOf(pts, p.ts);
  }

  /** The binary search and shifted insert amount to one map update. */
  lemma UpsertIsUpdate<V>(pts: seq<Point<V>>, p: Point<V>)
    requires Ascending(pts)
    ensures Ascending(Upsert(pts, p))
    ensures AsMap(Upsert(pts, p)) == AsMap(pts)[p.ts := p.value]
  {
    hide Upsert;
    UpsertAscends(pts, p);
    var u := Upsert(pts, p);
    var got, want := AsMap(u), AsMap(pts)[p.ts := p.value];
    forall ts | ts in got ensures ts in want && got[ts] == want[ts] {
      var i :| 0 <= i < |u| && u[i].ts == ts;
      UpsertMembers(pts, p, i);
      AsMapAt(u, i);
      if ts != p.ts {
        var j :| 0 <= j < |pts| && pts[j] == u[i];
        AsMapAt(pts, j);
      }
    }
    forall ts | ts in want ensures ts in got {
      if ts == p.ts {
        var i := UpsertHas(pts, p);
        AsMapAt(u, i);
      } else {
        var j :| 0 <= j < |pts| && pts[j].ts == ts;
        UpsertKeeps(pts, p, j);
        var i :| 0 <= i < |u| && u[i] == pts[j];
        AsMapAt(u, i);
      }
    }
  }

  /** The last value written to each timestamp of one series. */
  function LastWrites<V>(ps: seq<Point<V>>, series: nat): map<int, V> {
    if ps == [] then map[]
    else
      var p := ps[|ps| - 1];
      var before := LastWrites(ps[..|ps| - 1], series);
      if p.series == series then before[p.ts := p.value] else before
  }

  /** Well-formed, and the bounds are exact once something was written. */
  ghost predicate MemInvariant<V>(m: Mem<V>) {
    && WellFormedTable(m.byID)
    && (m.points == 0 ==> m.byID == map[])
    && (m.points > 0 ==> ExactBounds(Times(m.byID), m.minTS, m.maxTS))
  }

  lemma UpsertSeries<V>(pts: seq<Point<V>>, p: Point<V>)
    requires Ascending(pts) && forall q :: q in pts ==> q.series == p.series
    ensures forall q :: q in Upsert(pts, p) ==> q.series == p.series
  {
  }

  lemma UpsertTimes<V>(pts: seq<Point<V>>, p: Point<V>)
    requires Ascending(pts)
    ensures TimesOf(Upsert(pts, p)) == TimesOf(pts) + {p.ts}
  {
    hide Upsert;
    UpsertIsUpdate(pts, p);
    TimesAreKeys(pts);
    TimesAreKeys(Upsert(pts, p));
  }

  lemma TimesAreKeys<V>(pts: seq<Point<V>>)
    requires Ascending(pts)
    ensures TimesOf(pts) == AsMap(pts).Keys
  {
  }

  lemma WriteTable<V>(m: Mem<V>, p: Point<V>)
    requires WellFormedTable(m.byID)
    ensures WellFormedTable(MemWrite(m, p).byID)
    ensures forall s :: s != p.series ==> PointsOf(MemWrite(m, p).byID, s) == PointsOf(m.byID, s)
    ensures PointsOf(MemWrite(m, p).byID, p.series) == Upsert(PointsOf(m.byID, p.series), p)
    ensures Times(MemWrite(m, p).byID) == Times(m.byID) + {p.ts}
  {
    hide Upsert, AsMap;
    var pts, t := PointsOf(m.byID, p.series), MemWrite(m, p).byID;
    UpsertAscends(pts, p);
    UpsertSeries(pts, p);
    UpsertTimes(pts, p);
    TimesPointwise(m.byID, t, p);
  }

  lemma TimesPointwise<V>(a: Table<V>, b: Table<V>, p: Point<V>)
    requires b.Keys == a.Keys + {p.series}
    requires forall s :: s in a && s != p.series ==> b[s] == a[s]
    requires TimesOf(b[p.series]) == TimesOf(PointsOf(a, p.series)) + {p.ts}
    ensures Times(b) == Times(a) + {p.ts}
  {
    forall ts | ts in Times(b) ensures ts in Times(a) + {p.ts} {
      var s, i :| s in b && 0 <= i < |b[s]| && b[s][i].ts == ts;
      if s == p.series { assert ts in TimesOf(b[s]); }
    }
    forall ts | ts in Times(a) + {p.ts} ensures ts in Times(b) {
      if ts in Times(a) {
        var s, i :| s in a && 0 <= i < |a[s]| && a[s][i].ts == ts;
        if s == p.series { assert ts in TimesOf(a[s]); assert ts in TimesOf(b[s]); } else { assert b[s][i].ts == ts; }
      } else {
        assert ts in TimesOf(b[p.series]);
      }
    }
  }

  /** `Write` keeps the table well formed and the bounds exact. */
  lemma WriteKeepsInvariant<V>(m: Mem<V>, p: Point<V>)
    requires MemInvariant(m)
    ensures MemInvariant(MemWrite(m, p))
  {
    hide Upsert, Times;
    WriteTable(m, p);
    if m.points == 0 { NoTimes<V>(); }
  }

  lemma NoTimes<V>()
    ensures Times<V>(map[]) == {}
  {
  }

  /** After any sequence of writes to a fresh table, each series is its last-write map in
      ascending order, the bounds are exact, and every write was counted. */
  lemma {:induction false} WritesRefineMap<V>(ps: seq<Point<V>>, series: nat)
    ensures (var m := MemWriteAll(EmptyMem<V>(), ps);
             && MemInvariant(m)
             && m.points == |ps|
             && Ascending(PointsOf(m.byID, series))
             && AsMap(PointsOf(m.byID, series)) == LastWrites(ps, series))
    decreases |ps|
  {
    hide Upsert, Times, AsMap;
    if ps == [] {
      NothingAsMap<V>();
    } else {
      var before, p := ps[..|ps| - 1], ps[|ps| - 1];
      WritesRefineMap(before, series);
      var m := MemWriteAll(EmptyMem<V>(), before);
      WriteKeepsInvariant(m, p);
      WriteTable(m, p);
      UpsertIsUpdate(PointsOf(m.byID, p.series), p);
    }
  }

  lemma NothingAsMap<V>()
    ensures AsMap<V>([]) == map[]
  {
  }

  /** An ascending list of one series is determined by its map, so the refinement pins the
      stored sequences down exactly. */
  lemma {:induction false} AsMapInjective<V>(a: seq<Point<V>>, b: seq<Point<V>>, series: nat)
    requires Ascending(a) && Ascending(b) && AsMap(a) == AsMap(b)
    requires forall p :: p in a || p in b ==> p.series == series
    ensures a == b
    decreases |a|
  {
    hide AsMap;
    if a == [] {
      NothingAsMap<V>();
      if b != [] { AsMapAt(b, 0); }
    } else {
      SomeAsMap(a, b);
      var i, j := |a| - 1, |b| - 1;
      AsMapAt(a, i);
      AsMapAt(b, j);
      LastIsGreatest(a, b);
      LastIsGreatest(b, a);
      assert a[i] == b[j];
      AsMapButLast(a);
      AsMapButLast(b);
      assert forall p :: p in a[..i] ==> p in a;
      assert forall p :: p in b[..j] ==> p in b;
      AsMapInjective(a[..i], b[..j], series);
    }
  }

  lemma SomeAsMap<V>(a: seq<Point<V>>, b: seq<Point<V>>)
    requires Ascending(a) && Ascending(b) && AsMap(a) == AsMap(b) && a != []
    ensures b != []
  {
    AsMapAt(a, 0);
  }

  lemma LastIsGreatest<V>(a: seq<Point<V>>, b: seq<Point<V>>)
    requires Ascending(a) && Ascending(b) && AsMap(a) == AsMap(b) && a != [] && b != []
    ensures a[|a| - 1].ts <= b[|b| - 1].ts
  {
    AsMapAt(a, |a| - 1);
    var k := AsMapOnly(b, a[|a| - 1].ts);
  }

  lemma AsMapOnly<V>(pts: seq<Point<V>>, ts: int) returns (i: nat)
    requires Ascending(pts) && ts in AsMap(pts)
    ensures i < |pts| && pts[i].ts == ts && AsMap(pts)[ts] == pts[i].value
  {
    i :| 0 <= i < |pts| && pts[i].ts == ts;
  }

  lemma AsMapButLast<V>(a: seq<Point<V>>)
    requires Ascending(a) && a != []
    ensures Ascending(a[..|a| - 1])
    ensures AsMap(a[..|a| - 1]) == AsMap(a) - {a[|a| - 1].ts}
  {
    hide AsMap;
    var n := |a| - 1;
    var b := a[..n];
    forall ts | ts in AsMap(a) && ts != a[n].ts ensures ts in AsMap(b) && AsMap(b)[ts] == AsMap(a)[ts] {
      var i := AsMapOnly(a, ts);
      assert b[i] == a[i];
      AsMapAt(b, i);
    }
    forall ts | ts in AsMap(b) ensures ts in AsMap(a) && ts != a[n].ts {
      var i := AsMapOnly(b, ts);
      assert b[i] == a[i];
      AsMapAt(a, i);
    }
  }

  // ----- which writes make the same table -----

  /** No series is stored without points. */
  lemma {:induction false} WrittenSeries<V>(ps: seq<Point<V>>, series: nat)
    ensures (var t := MemWriteAll(EmptyMem<V>(), ps).byID; series in t ==> t[series] != [])
    decreases |ps|
  {
    if ps != [] { WrittenSeries(ps[..|ps| - 1], series); }
  }

  lemma SameSeriesWrites<V>(a: seq<Point<V>>, b: seq<Point<V>>, series: nat)
    requires LastWrites(a, series) == LastWrites(b, series)
    ensures (var s, t := MemWriteAll(EmptyMem<V>(), a).byID, MemWriteAll(EmptyMem<V>(), b).byID;
             (series in s <==> series in t) && (series in s ==> s[series] == t[series]))
  {
    hide MemWrite, MemWriteAll, LastWrites, Times, AsMap;
    var s, t := MemWriteAll(EmptyMem<V>(), a).byID, MemWriteAll(EmptyMem<V>(), b).byID;
    WritesRefineMap(a, series);
    WritesRefineMap(b, series);
    WrittenSeries(a, series);
    WrittenSeries(b, series);
    AsMapInjective(PointsOf(s, series), PointsOf(t, series), series);
  }

  lemma OneBounds(times: set<int>, lo: int, hi: int, lo': int, hi': int)
    requires ExactBounds(times, lo, hi) && ExactBounds(times, lo', hi')
    ensures lo == lo' && hi == hi'
  {
  }

  /** Equally long, with the same last value at every timestamp of every series. */
  ghost predicate SameLastWrites<V>(a: seq<Point<V>>, b: seq<Point<V>>) {
    |a| == |b| && forall series: nat :: LastWrites(a, series) == LastWrites(b, series)
  }

  lemma SameTable<V>(a: seq<Point<V>>, b: seq<Point<V>>)
    requires SameLastWrites(a, b)
    ensures MemWriteAll(EmptyMem<V>(), a) == MemWriteAll(EmptyMem<V>(), b)
  {
    hide MemWrite, MemWriteAll, LastWrites, Times, AsMap, WellFormedTable, ExactBounds;
    var m, n := MemWriteAll(EmptyMem<V>(), a), MemWriteAll(EmptyMem<V>(), b);
    WritesRefineMap(a, 0);
    WritesRefineMap(b, 0);
    forall series: nat ensures (series in m.byID <==> series in n.byID)
      ensures series in m.byID ==> m.byID[series] == n.byID[series]
    {
      SameSeriesWrites(a, b, series);
    }
    assert m.byID == n.byID;
    if |a| > 0 {
      OneBounds(Times(m.byID), m.minTS, m.maxTS, n.minTS, n.maxTS);
    } else {
      NoWritesTable(a);
      NoWritesTable(b);
    }
  }

  /** Two sequences of writes make the same table, bounds and count included, exactly when they are
      equally long and agree on the last value of every timestamp of every series. */
  lemma SameTableIff<V>(a: seq<Point<V>>, b: seq<Point<V>>)
    ensures MemWriteAll(EmptyMem<V>(), a) == MemWriteAll(EmptyMem<V>(), b) <==> SameLastWrites(a, b)
  {
    hide MemWrite, MemWriteAll, LastWrites, Times, AsMap;
    if SameLastWrites(a, b) {
      SameTable(a, b);
    }
    if MemWriteAll(EmptyMem<V>(), a) == MemWriteAll(EmptyMem<V>(), b) {
      forall series: nat ensures |a| == |b| && LastWrites(a, series) == LastWrites(b, series) {
        WritesRefineMap(a, series);
        WritesRefineMap(b, series);
      }
      assert |a| == |b| by { WritesRefineMap(a, 0); WritesRefineMap(b, 0); }
    }
  }

  lemma NoWritesTable<V>(ps: seq<Point<V>>)
    requires |ps| == 0
    ensures MemWriteAll(EmptyMem<V>(), ps) == EmptyMem()
  {
  }

  // ----- the table in place -----

  /** A snapshot. It is the live table's while it is current. */
  class Snapshot<V> {
    var refs: nat
    var byID: Table<V>
    var minTS: int
    var maxTS: int

    constructor ()
      ensures refs == 1 && byID == map[] && minTS == 0 && maxTS == 0
    {
      refs, byID, minTS, maxTS := 1, map[], 0, 0;
    }

    method Acquire()
      modifies this`refs
      ensures refs == old(refs) + 1
    {
      refs := refs + 1;
    }

    method Release()
      modifies this`refs
      ensures refs == if old(refs) > 0 then old(refs) - 1 else 0
    {
      if refs > 0 {
        refs := refs - 1;
      }
    }

    /** `Range`: one series' points in [start, end). */
    method Range(series: nat, rng: QueryRange) returns (out: seq<Point<V>>)
      requires WellFormedTable(byID) && Sliceable(PointsOf(byID, series), rng)
      ensures out == InRange(PointsOf(byID, series), rng)
    {
      out := Slice(PointsOf(byID, series), rng);
    }

    /** `RawCopy`: copies every series' list. */
    method RawCopy() returns (out: Table<V>)
      ensures out == byID
    {
      out := map[];
      var rest := byID.Keys;
      while rest != {}
        invariant rest <= byID.Keys
        invariant out.Keys == byID.Keys - rest
        invariant forall s :: s in out ==> out[s] == byID[s]
        decreases |rest|
      {
        var s :| s in rest;
        rest := rest - {s};
        out := out[s := byID[s]];
      }
    }
  }

  class MemTable<V> {
    var current: Snapshot<V>
    var points: nat

    ghost function View(): Mem<V>
      reads this, current
    {
      Mem(current.byID, current.minTS, current.maxTS, points)
    }

    constructor ()
      ensures fresh(current) && View() == EmptyMem()
    {
      current := new Snapshot();
      points := 0;
    }

    /** `Write`: search, then overwrite or shift and insert, then the bounds. */
    method Write(p: Point<V>)
      requires WellFormedTable(current.byID)
      modifies this`points, current
      ensures View() == MemWrite(old(View()), p)
      ensures current.refs == old(current.refs)
    {
      hide Upsert, WellFormedTable, Ascending;
      var pts := if p.series in current.byID then current.byID[p.series] else [];
      AscendingSeries(current.byID, p.series);
      pts := Insert(pts, p);
      current.byID := current.byID[p.series := pts];
      if points == 0 || p.ts < current.minTS {
        current.minTS := p.ts;
      }
      if points == 0 || p.ts > current.maxTS {
        current.maxTS := p.ts;
      }
      points := points + 1;
    }

    /** The search and the shifted insert of `Write`, on one series' list. */
    method Insert(pts: seq<Point<V>>, p: Point<V>) returns (out: seq<Point<V>>)
      requires Ascending(pts)
      ensures out == Upsert(pts, p)
    {
      var idx := LowerBound(pts, p.ts);
      if idx < |pts| && pts[idx].ts == p.ts {
        out := pts[idx := pts[idx].(value := p.value)];
      } else {
        out := pts[..idx] + [p] + pts[idx..];
      }
    }

    lemma AscendingSeries(t: Table<V>, series: nat)
      requires WellFormedTable(t)
      ensures Ascending(PointsOf(t, series))
    {
    }

    /** `Latest`: pins the current snapshot. */
    method Latest() returns (snap: Snapshot<V>)
      modifies current`refs
      ensures snap == current && current.refs == old(current.refs) + 1
    {
      current.Acquire();
      snap := current;
    }

    /** `Flush`: hands the snapshot over and starts a new one. */
    method Flush() returns (snap: Snapshot<V>)
      modifies this
      ensures snap == old(current) && fresh(current) && View() == EmptyMem()
    {
      snap := current;
      current := new Snapshot();
      points := 0;
    }

    /** `Read`: one series' points in [start, end), with the snapshot pinned meanwhile. */
    method Read(series: nat, rng: QueryRange) returns (out: seq<Point<V>>)
      requires WellFormedTable(current.byID) && Sliceable(PointsOf(current.byID, series), rng)
      modifies current`refs
      ensures View() == old(View()) && current.refs == old(current.refs)
      ensures out == InRange(PointsOf(current.byID, series), rng)
    {
      var snap := Latest();
      out := snap.Range(series, rng);
      snap.Release();
    }
  }

  /** A snapshot handed over by `Flush` is not changed by any later writes. */
  method FlushedStaysFixed<V>(m: MemTable<V>, later: seq<Point<V>>) returns (snap: Snapshot<V>)
    modifies m
    ensures snap == old(m.current) && snap.byID == old(m.current.byID)
    ensures snap.minTS == old(m.current.minTS) && snap.maxTS == old(m.current.maxTS)
    ensures m.View() == MemWriteAll(EmptyMem<V>(), later)
  {
    snap := m.Flush();
    assert later[..0] == [];
    for i := 0 to |later|
      invariant m.current != snap && fresh(m.current)
      invariant snap.byID == old(m.current.byID)
      invariant snap.minTS == old(m.current.minTS) && snap.maxTS == old(m.current.maxTS)
      invariant m.View() == MemWriteAll(EmptyMem<V>(), later[..i])
    {
      WritesRefineMap(later[..i], 0);
      m.Write(later[i]);
      assert later[..i + 1][..i] == later[..i];
    }
    assert later[..|later|] == later;
  }

  /** A snapshot pinned by `Latest` is the live one: it does change under later writes. */
  method PinnedMoves<V>(m: MemTable<V>, p: Point<V>) returns (snap: Snapshot<V>)
    requires WellFormedTable(m.current.byID)
    modifies m, m.current
    ensures snap == m.current == old(m.current)
    ensures snap.byID == MemWrite(old(m.View()), p).byID
  {
    snap := m.Latest();
    m.Write(p);
  }
}
