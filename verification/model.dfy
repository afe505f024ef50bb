/** The data shared by every package: points, per-series tables, ranges and states. */
module Model {
  import opened Seqs

  datatype Option<+T> = None | Some(value: T)

  /** Why an operation of the source returned an error. */
  datatype Error =
    | BeforeActiveShard
    | AlreadyArchived
    | InvalidName
    | InvalidLabel
    | NotLarger
    | BadWindow

  datatype Result<+T> = Ok(value: T) | Err(error: Error)

  /** One sample. `V` is the sample's value: a 64-bit pattern where points go through
      the log, a real where they are aggregated. */
  datatype Point<V> = Point(ts: int, value: V, series: nat)

  /** The half-open time range [start, end). */
  datatype QueryRange = QueryRange(start: int, end: int) {
    predicate Holds(ts: int) { start <= ts < end }
  }

  datatype ShardState = ShardActive | ShardSealing | ShardSealed | ShardArchived

  datatype BlockState = BlockMutable | BlockImmutable | BlockCompacting | BlockArchived

  /** Points by series id, as memtables and blocks store them. */
  type Table<V> = map<nat, seq<Point<V>>>

  /** The points of one series; a missing series has none. */
  function PointsOf<V>(t: Table<V>, series: nat): seq<Point<V>> {
    if series in t then t[series] else []
  }

  ghost predicate Ascending<V>(pts: seq<Point<V>>) {
    forall i, j :: 0 <= i < j < |pts| ==> pts[i].ts < pts[j].ts
  }

  /** Weaker than Ascending: equal timestamps may repeat. */
  ghost predicate SortedByTime<V>(pts: seq<Point<V>>) {
    forall i, j :: 0 <= i < j < |pts| ==> pts[i].ts <= pts[j].ts
  }

  ghost predicate WellFormedTable<V>(t: Table<V>) {
    forall series :: series in t ==>
                       && Ascending(t[series])
                       && forall p :: p in t[series] ==> p.series == series
  }

  /** The timestamps of a point list, and of a whole table. */
  ghost function TimesOf<V>(pts: seq<Point<V>>): set<int> {
    set i | 0 <= i < |pts| :: pts[i].ts
  }

  ghost function Times<V>(t: Table<V>): set<int> {
    set s, i | s in t && 0 <= i < |t[s]| :: t[s][i].ts
  }

  /** minTS and maxTS are attained and bound every timestamp. */
  ghost predicate ExactBounds(times: set<int>, minTS: int, maxTS: int) {
    && minTS in times && maxTS in times
    && forall ts :: ts in times ==> minTS <= ts <= maxTS
  }

  function InsideOf<V>(rng: QueryRange): Point<V> -> bool {
    (p: Point<V>) => rng.Holds(p.ts)
  }

  /** The points of `pts` inside the range, in order. */
  function InRange<V>(pts: seq<Point<V>>, rng: QueryRange): seq<Point<V>> {
    Filter(InsideOf(rng), pts)
  }

  /** Go's `%`, which truncates toward zero. */
  function GoMod(a: int, n: int): int
    requires n > 0
  {
    if a >= 0 then a % n else -((-a) % n)
  }

  /** `ts - ts%step`: the start of the window of `ts`, rounded toward zero. */
  function Align(ts: int, step: int): int
    requires step > 0
  {
    ts - GoMod(ts, step)
  }

  lemma DivideBounds(a: int, n: int)
    requires n > 0
    ensures a / n * n <= a < a / n * n + n
    ensures a - a % n == a / n * n
  {
  }

  lemma MulStep(x: int, y: int, n: int)
    requires n > 0 && x < y
    ensures x * n + n <= y * n
  {
    assert (y - x - 1) * n >= 0;
    assert (y - x - 1) * n == y * n - x * n - n;
  }

  lemma DivideUnique(a: int, q: int, n: int)
    requires n > 0 && q * n <= a < q * n + n
    ensures a / n == q
  {
    DivideBounds(a, n);
    var d := a / n;
    if d < q { MulStep(d, q, n); }
    if q < d { MulStep(q, d, n); }
  }

  lemma MultipleOf(q: int, n: int)
    requires n > 0
    ensures (q * n) % n == 0 && q * n / n == q
  {
    DivideUnique(q * n, q, n);
    DivideBounds(q * n, n);
  }

  lemma NegatedMultipleOf(a: int, n: int)
    requires n > 0
    ensures a % n == 0 <==> (-a) % n == 0
  {
    var q, p := a / n, (-a) / n;
    DivideBounds(a, n);
    DivideBounds(-a, n);
    if a % n == 0 {
      assert -a == -q * n;
      MultipleOf(-q, n);
    }
    if (-a) % n == 0 {
      assert a == -p * n;
      MultipleOf(-p, n);
    }
  }

  /** For the timestamps the source is meant for, windows are [start, start+step). */
  lemma AlignNonNegative(ts: int, step: int)
    requires step > 0 && ts >= 0
    ensures 0 <= Align(ts, step) <= ts < Align(ts, step) + step
    ensures Align(ts, step) % step == 0
  {
    DivideBounds(ts, step);
    var q := ts / step;
    MultipleOf(q, step);
    assert Align(ts, step) == q * step;
    assert 0 <= q;
    NonNegativeProduct(q, step);
  }

  lemma NonNegativeProduct(a: int, b: int)
    requires a >= 0 && b >= 0
    ensures a * b >= 0
  {
  }

  lemma AlignNegated(ts: int, step: int)
    requires step > 0 && ts > 0
    ensures Align(-ts, step) == -Align(ts, step)
  {
  }

  lemma AlignFixed(ts: int, step: int)
    requires step > 0
    ensures Align(Align(ts, step), step) == Align(ts, step)
  {
    var a := if ts >= 0 then ts else -ts;
    AlignNonNegative(a, step);
    var w := Align(a, step);
    assert Align(w, step) == w;
    if ts < 0 {
      AlignNegated(a, step);
      if w > 0 { AlignNegated(w, step); }
    }
  }

  lemma QuotientMonotone(a: int, b: int, n: int)
    requires n > 0 && a <= b
    ensures a / n * n <= b / n * n
  {
    DivideBounds(a, n);
    DivideBounds(b, n);
    var qa, qb := a / n, b / n;
    if qb < qa { MulStep(qb, qa, n); }
  }

  lemma AlignMonotone(a: int, b: int, step: int)
    requires step > 0 && a <= b
    ensures Align(a, step) <= Align(b, step)
  {
    if a >= 0 {
      AlignOrder(a, b, step);
    } else if b < 0 {
      AlignNegated(-a, step);
      AlignNegated(-b, step);
      AlignOrder(-b, -a, step);
    } else {
      AlignNegated(-a, step);
      AlignNonNegative(-a, step);
      AlignNonNegative(b, step);
    }
  }

  lemma AlignOrder(a: int, b: int, step: int)
    requires step > 0 && 0 <= a <= b
    ensures Align(a, step) <= Align(b, step)
  {
    DivideBounds(a, step);
    DivideBounds(b, step);
    QuotientMonotone(a, b, step);
  }

  /** A multiple of the fine step that lies at or below ts stays at or below its window start. */
  lemma AlignAtLeast(ts: int, step: int, bound: int)
    requires step > 0 && 0 <= bound <= ts && bound % step == 0
    ensures bound <= Align(ts, step)
  {
    AlignMonotone(bound, ts, step);
  }

  /** Aligning to a fine step first does not move a point across coarse windows. */
  lemma AlignNested(ts: int, fine: int, coarse: int)
    requires fine > 0 && coarse > 0 && coarse % fine == 0
    ensures Align(Align(ts, fine), coarse) == Align(ts, coarse)
  {
    if ts >= 0 {
      AlignNestedUp(ts, fine, coarse);
    } else {
      AlignNestedUp(-ts, fine, coarse);
      AlignNegated(-ts, fine);
      AlignNegated(-ts, coarse);
      AlignNonNegative(-ts, fine);
      if Align(-ts, fine) > 0 { AlignNegated(Align(-ts, fine), coarse); }
    }
  }

  lemma AlignNestedUp(ts: int, fine: int, coarse: int)
    requires fine > 0 && coarse > 0 && coarse % fine == 0 && ts >= 0
    ensures Align(Align(ts, fine), coarse) == Align(ts, coarse)
  {
    AlignNonNegative(ts, fine);
    AlignNonNegative(ts, coarse);
    var w := Align(ts, coarse);
    DivideBounds(coarse, fine);
    DivideBounds(ts, coarse);
    var q, k := coarse / fine, ts / coarse;
    assert w == k * coarse == k * (q * fine) == (k * q) * fine;
    MultipleOf(k * q, fine);
    AlignAtLeast(ts, fine, w);
    var a := Align(ts, fine);
    assert w <= a < w + coarse;
    WindowOf(a, coarse, k);
  }

  lemma WindowOf(a: int, step: int, k: int)
    requires step > 0 && a >= 0 && k * step <= a < k * step + step
    ensures Align(a, step) == k * step
  {
    DivideUnique(a, k, step);
    DivideBounds(a, step);
  }
}
