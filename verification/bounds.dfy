/** The smallest and largest timestamp of a table, found in one pass. */
module TableBounds {
  import opened Model
  import opened EngineState
  import opened EngineSteps

  /** A table's timestamps, built up series by series. */
  lemma TimesGrow<V>(t: Table<V>, s: nat, pts: seq<Point<V>>)
    requires s !in t
    ensures Times(t[s := pts]) == Times(t) + TimesOf(pts)
  {
    var u := t[s := pts];
    forall ts ensures ts in Times(u) <==> ts in Times(t) + TimesOf(pts) {
      TimesSplit(u, ts);
      TimesSplit(t, ts);
      if ts in TimesOf(pts) { assert ts in TimesOf(u[s]); }
      if x :| x in t && ts in TimesOf(t[x]) { assert ts in TimesOf(u[x]); }
    }
  }

  /** A running minimum and maximum, meaningless until a first timestamp is seen. */
  ghost predicate Bounds(times: set<int>, first: bool, lo: int, hi: int) {
    && (first <==> times == {})
    && (first ==> lo == 0 && hi == 0)
    && (!first ==> ExactBounds(times, lo, hi))
  }

  lemma BoundsMore(times: set<int>, first: bool, lo: int, hi: int, ts: int)
    requires Bounds(times, first, lo, hi)
    ensures Bounds(times + {ts}, false, if first || ts < lo then ts else lo, if first || ts > hi then ts else hi)
  {
  }

  lemma BoundsAre(times: set<int>, first: bool, lo: int, hi: int)
    requires Bounds(times, first, lo, hi)
    ensures lo == Least(times) && hi == Greatest(times)
  {
    if !first { BoundsUnique(times, lo, hi); }
  }

  /** The bounds loop over one series' points. */
  method Widen<V>(pts: seq<Point<V>>, first: bool, lo: int, hi: int, ghost times: set<int>)
    returns (first': bool, lo': int, hi': int)
    requires Bounds(times, first, lo, hi)
    ensures Bounds(times + TimesOf(pts), first', lo', hi')
  {
    hide Bounds;
    first', lo', hi' := first, lo, hi;
    assert times + TimesOf(pts[..0]) == times;
    for i := 0 to |pts|
      invariant Bounds(times + TimesOf(pts[..i]), first', lo', hi')
    {
      var ts := pts[i].ts;
      BoundsMore(times + TimesOf(pts[..i]), first', lo', hi', ts);
      TimesSnoc(pts, i);
      assert times + TimesOf(pts[..i]) + {ts} == times + TimesOf(pts[..i + 1]);
      if first' || ts < lo' { lo' := ts; }
      if first' || ts > hi' { hi' := ts; }
      first' := false;
    }
    assert pts[..|pts|] == pts;
  }

  lemma TimesSnoc<V>(pts: seq<Point<V>>, i: nat)
    requires i < |pts|
    ensures TimesOf(pts[..i + 1]) == TimesOf(pts[..i]) + {pts[i].ts}
  {
    var a, b := pts[..i], pts[..i + 1];
    assert forall k :: 0 <= k < i ==> a[k] == b[k];
    forall ts ensures ts in TimesOf(b) <==> ts in TimesOf(a) + {pts[i].ts} {
      if ts in TimesOf(b) {
        var k :| 0 <= k <= i && b[k].ts == ts;
        if k < i { assert a[k].ts == ts; }
      }
      if ts in TimesOf(a) {
        var k :| 0 <= k < i && a[k].ts == ts;
        assert b[k].ts == ts;
      }
      if ts == pts[i].ts { assert b[i].ts == ts; }
    }
  }

  lemma StartBounds<V>()
    ensures Times<V>(map[]) == {} && Bounds({}, true, 0, 0)
  {
  }
}
