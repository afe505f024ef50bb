/** What each operation does to the answers of queries: appending, rotating and compacting. Flushing
    and sweeping are in EngineQueries. */
module EngineAnswers {
  import opened Model
  import opened Seqs
  import opened Memtable
  import opened TimeSearch
  import opened Sharding
  import opened Storage
  import opened EngineState
  import opened EngineSteps
  import opened EngineQueries
  import opened EngineRuns

  // ----- appending and rotating -----

  function AtTime<V>(ts: int): Point<V> -> bool {
    (p: Point<V>) => p.ts == ts
  }

  /** The buffered point that a write at this timestamp overwrites, if it is in the range. */
  ghost function Overwritten<V>(m: Mem<V>, p: Point<V>, series: nat, rng: QueryRange): multiset<Point<V>> {
    if series == p.series then multiset(InRange(Filter(AtTime(p.ts), PointsOf(m.byID, series)), rng)) else multiset{}
  }

  ghost function Written<V>(p: Point<V>, series: nat, rng: QueryRange): multiset<Point<V>> {
    if series == p.series && rng.Holds(p.ts) then multiset{p} else multiset{}
  }

  /** Splitting a sorted list at the place an upsert looks at. */
  lemma UpsertSplit<V>(pts: seq<Point<V>>, p: Point<V>) returns (a: seq<Point<V>>, hit: seq<Point<V>>, b: seq<Point<V>>)
    requires Ascending(pts) && forall q :: q in pts ==> q.series == p.series
    ensures pts == a + hit + b && Upsert(pts, p) == a + [p] + b && |hit| <= 1
    ensures forall q :: q in a || q in b ==> q.ts != p.ts
    ensures forall q :: q in hit ==> q.ts == p.ts
  {
    var i := LowerBoundOf(pts, p.ts);
    a := pts[..i];
    if i < |pts| && pts[i].ts == p.ts {
      hit, b := [pts[i]], pts[i + 1..];
      assert pts[i] in pts;
      ReplaceOne(pts, i, p);
    } else {
      hit, b := [], pts[i..];
    }
    TimesApart(pts, p.ts, i);
  }

  lemma ReplaceOne<T>(xs: seq<T>, i: nat, x: T)
    requires i < |xs|
    ensures xs[i := x] == xs[..i] + [x] + xs[i + 1..] && xs == xs[..i] + [xs[i]] + xs[i + 1..]
  {
  }

  lemma TimesApart<V>(pts: seq<Point<V>>, ts: int, i: nat)
    requires Ascending(pts) && i == LowerBoundOf(pts, ts)
    ensures forall q :: q in pts[..i] ==> q.ts != ts
    ensures i < |pts| ==> forall q :: q in pts[i + 1..] ==> q.ts != ts
    ensures i < |pts| && pts[i].ts != ts ==> forall q :: q in pts[i..] ==> q.ts != ts
  {
    hide LowerBoundOf;
  }

  lemma FilterSplit<V>(a: seq<Point<V>>, hit: seq<Point<V>>, b: seq<Point<V>>, ts: int)
    requires forall q :: q in a || q in b ==> q.ts != ts
    requires forall q :: q in hit ==> q.ts == ts
    ensures Filter(AtTime(ts), a + hit + b) == hit
  {
    hide Filter;
    FilterNone(AtTime(ts), a);
    FilterNone(AtTime(ts), b);
    FilterAll(AtTime(ts), hit);
    FilterConcat(AtTime(ts), a, hit);
    FilterConcat(AtTime(ts), a + hit, b);
  }

  lemma UpsertBag<V>(pts: seq<Point<V>>, p: Point<V>, rng: QueryRange)
    requires Ascending(pts) && forall q :: q in pts ==> q.series == p.series
    ensures multiset(InRange(Upsert(pts, p), rng)) + multiset(InRange(Filter(AtTime(p.ts), pts), rng))
         == multiset(InRange(pts, rng)) + (if rng.Holds(p.ts) then multiset{p} else multiset{})
  {
    hide Upsert, Filter;
    var a, hit, b := UpsertSplit(pts, p);
    FilterSplit(a, hit, b, p.ts);
    var inside := InsideOf<V>(rng);
    FilterConcat(inside, a, hit);
    FilterConcat(inside, a + hit, b);
    FilterConcat(inside, a, [p]);
    FilterConcat(inside, a + [p], b);
    FilterOne(inside, p);
  }

  lemma WrittenBag<V>(m: Mem<V>, p: Point<V>, series: nat, rng: QueryRange)
    requires WellFormedTable(m.byID)
    ensures MemBag(MemWrite(m, p), series, rng) + Overwritten(m, p, series, rng)
         == MemBag(m, series, rng) + Written(p, series, rng)
  {
    hide Upsert, Times, InRange, Filter;
    WriteTable(m, p);
    if series == p.series {
      UpsertBag(PointsOf(m.byID, series), p, rng);
    }
  }

  lemma {:induction false} MovedListing(a: seq<ShardV>, b: seq<ShardV>)
    requires |a| <= |b| && (forall i :: 0 <= i < |a| ==> b[i].blocks == a[i].blocks)
    requires forall i :: |a| <= i < |b| ==> b[i].blocks == []
    ensures AllListed(b) == AllListed(a)
    decreases |b|
  {
    if |a| < |b| {
      MovedListing(a, b[..|b| - 1]);
      assert AllListed(b[..|b| - 1]) + [] == AllListed(b[..|b| - 1]);
    } else {
      SameListing(a, b);
    }
  }

  lemma MovedBag<V>(s: StoreV<V>, a: Shards, b: Shards, series: nat, rng: QueryRange)
    requires MovesOn(a, b)
    ensures ShardsBag(s, b.shards, series, rng) == ShardsBag(s, a.shards, series, rng)
  {
    hide ShardInvariant, IdsBag, AllListed, ShardsBag;
    MovedListing(a.shards, b.shards);
    ShardsBagIsIds(s, a.shards, series, rng);
    ShardsBagIsIds(s, b.shards, series, rng);
  }

  /** An accepted sample joins every answer it belongs to, in place of the buffered sample of the
      same series and timestamp if there is one, and changes nothing else; a refused one changes
      no answer. */
  lemma AppendAnswers<V>(c: Core<V>, p: Point<V>, series: nat, rng: QueryRange)
    requires CoreInvariant(c) && c.shards.shards != [] && c.shards.window > 0
    ensures Routable(c.shards, p.ts) ==>
              FullBag(AppendCore(c, p), series, rng) + Overwritten(c.mem, p, series, rng)
              == FullBag(c, series, rng) + Written(p, series, rng)
    ensures !Routable(c.shards, p.ts) ==> FullBag(AppendCore(c, p), series, rng) == FullBag(c, series, rng)
  {
    hide ShardInvariant, StoreInvariant, ListingGood, GoodBlock, BelowNewestEnd, MovesOn, MemWrite, RouteShards,
      Times, ShardsBag, MemBag, Overwritten, Written, WellFormedTable;
    InvariantShape(c.shards);
    if Routable(c.shards, p.ts) {
      RouteMoves(c.shards, p.ts);
      MovedBag(c.store, c.shards, RouteShards(c.shards, p.ts), series, rng);
      WrittenBag(c.mem, p, series, rng);
      AddBeside(MemBag(MemWrite(c.mem, p), series, rng), Overwritten(c.mem, p, series, rng),
                MemBag(c.mem, series, rng), Written(p, series, rng), ShardsBag(c.store, c.shards.shards, series, rng));
    }
  }

  lemma AddBeside<T>(a: multiset<T>, b: multiset<T>, c: multiset<T>, d: multiset<T>, s: multiset<T>)
    requires a + b == c + d
    ensures a + s + b == c + s + d
  {
    assert a + s + b == a + b + s;
    assert c + s + d == c + d + s;
  }

  /** A forced rotation changes no answer. */
  lemma RotateAnswers<V>(c: Core<V>, series: nat, rng: QueryRange)
    requires CoreInvariant(c) && c.shards.shards != []
    ensures FullBag(c.(shards := RotateShards(c.shards)), series, rng) == FullBag(c, series, rng)
  {
    hide MemInvariant, StoreInvariant, ListingGood, GoodBlock, BelowNewestEnd, ShardInvariant, MovesOn, RotateShards,
      ShardsBag, MemBag;
    RotateMoves(c.shards);
    MovedBag(c.store, c.shards, RotateShards(c.shards), series, rng);
  }

  // ----- compacting -----

  /** One block of a list of distinct ones can no longer be opened; the others are unchanged. */
  lemma {:induction false} IdsBagWithout<V>(a: StoreV<V>, b: StoreV<V>, ids: seq<nat>, id: nat, series: nat,
                                            rng: QueryRange)
    requires DistinctIds(ids) && BlockBag(b, id, series, rng) == multiset{}
    requires forall x :: x in ids && x != id ==> BlockBag(a, x, series, rng) == BlockBag(b, x, series, rng)
    ensures IdsBag(a, ids, series, rng)
         == IdsBag(b, ids, series, rng) + (if id in ids then BlockBag(a, id, series, rng) else multiset{})
    decreases |ids|
  {
    hide BlockBag;
    if ids != [] {
      var n := |ids| - 1;
      assert ids == ids[..n] + [ids[n]];
      assert ids[n] in ids;
      IdsBagWithout(a, b, ids[..n], id, series, rng);
    }
  }

  /** The store a successful compaction leaves. */
  ghost function Replaced<V>(s: StoreV<V>, id: nat, table: Table<V>, lo: int, hi: int): StoreV<V> {
    ReleasedAfterCompaction(CreateIn(HeldForCompaction(s, id), table, lo, hi), id)
  }

  lemma ReplacedBlocks<V>(s: StoreV<V>, id: nat, table: Table<V>, lo: int, hi: int, other: nat, series: nat,
                          rng: QueryRange)
    requires StoreInvariant(s) && Openable(s, id)
    ensures BlockBag(Replaced(s, id, table, lo, hi), id, series, rng) == multiset{}
    ensures BlockBag(Replaced(s, id, table, lo, hi), s.nextID + 1, series, rng)
         == multiset(InRange(PointsOf(table, series), rng))
    ensures other != id && other <= s.nextID ==>
              BlockBag(Replaced(s, id, table, lo, hi), other, series, rng) == BlockBag(s, other, series, rng)
  {
    hide HeldForCompaction, ReleasedAfterCompaction, InRange, StoreInvariant;
    var held := HeldForCompaction(s, id);
    var made := CreateIn(held, table, lo, hi);
    HeldShrinks(s, id);
    ShrinksStore(s, held);
    HeldSame(s, id);
    NewIdFresh(s);
    HeldOpenable(s, id, id);
    HeldOpenable(s, id, other);
    CreateKeepsStore(held, table, lo, hi);
    StoredIds(s, id);
    ReleasedOpenable(made, id, id);
    ReleasedOpenable(made, id, made.nextID);
    ReleasedOpenable(made, id, other);
  }

  lemma HeldSame<V>(s: StoreV<V>, id: nat)
    ensures HeldForCompaction(s, id).nextID == s.nextID
    ensures HeldForCompaction(s, id).blocks.Keys == s.blocks.Keys
  {
  }

  lemma StoredIds<V>(s: StoreV<V>, id: nat)
    requires StoreInvariant(s) && id in s.blocks
    ensures id <= s.nextID
  {
  }

  lemma ListedIds<V>(c: Core<V>, id: nat)
    requires CoreInvariant(c) && id in AllListed(c.shards.shards)
    ensures id <= c.store.nextID
  {
    hide ShardInvariant, MemInvariant, StoreInvariant, BelowNewestEnd, ListedOnce, GoodBlock, AllListed;
    ListedMember(c.shards.shards, id);
    var i :| 0 <= i < |c.shards.shards| && id in c.shards.shards[i].blocks;
    assert ListedWell(c.shards.shards[i], c.store, id);
  }

  /** The bookkeeping of one replacement: the source's share goes, the replacement's comes. */
  lemma ReplacedBag<V>(c: Core<V>, id: nat, table: Table<V>, lo: int, hi: int, series: nat, rng: QueryRange)
    requires CoreInvariant(c) && Openable(c.store, id) && Lists(c.shards.shards, id) && c.shards.shards != []
    ensures ShardsBag(Replaced(c.store, id, table, lo, hi), AddBlockToNewest(c.shards, c.store.nextID + 1).shards,
                      series, rng)
            + BlockBag(c.store, id, series, rng)
         == ShardsBag(c.store, c.shards.shards, series, rng) + multiset(InRange(PointsOf(table, series), rng))
  {
    hide CoreInvariant, IdsBag, AllListed, BlockBag, Replaced, InRange, DistinctIds, ListedOnce;
    var made, ids, after := c.store.nextID + 1, AllListed(c.shards.shards), Replaced(c.store, id, table, lo, hi);
    StoreOf(c);
    forall x | x in ids && x != id ensures BlockBag(c.store, x, series, rng) == BlockBag(after, x, series, rng) {
      ListedIds(c, x);
      ReplacedBlocks(c.store, id, table, lo, hi, x, series, rng);
    }
    ReplacedBlocks(c.store, id, table, lo, hi, id, series, rng);
    ListingOnce(c);
    ListedDistinct(c.shards.shards);
    ListedMember(c.shards.shards, id);
    IdsBagWithout(c.store, after, ids, id, series, rng);
    AllListedAdd(c.shards, made);
    IdsBagSnoc(after, ids, made, series, rng);
    ShardsBagIsIds(c.store, c.shards.shards, series, rng);
    ShardsBagIsIds(after, AddBlockToNewest(c.shards, made).shards, series, rng);
  }

  lemma StoreOf<V>(c: Core<V>)
    requires CoreInvariant(c)
    ensures StoreInvariant(c.store)
  {
  }

  /** A compaction swaps, in the answer to every query, exactly the source's in-range points for
      its downsampled ones. A refused compaction changes no answer. */
  lemma CompactSwapsAnswers(c: Core<real>, id: nat, step: int, series: nat, rng: QueryRange)
    requires CoreInvariant(c) && step > 0 && c.shards.shards != [] && c.shards.window > 0
    requires Openable(c.store, id) && Lists(c.shards.shards, id)
    ensures (var (d, r) := CompactCore(c, id, step);
             && (r.Ok? ==>
                   (FullBag(d, series, rng) + BlockBag(c.store, id, series, rng)
                    == FullBag(c, series, rng)
                       + multiset(InRange(PointsOf(CompactTable(c.store.blocks[id].byID, step), series), rng))))
             && (r.Err? ==> FullBag(d, series, rng) == FullBag(c, series, rng)))
  {
    hide CoreInvariant, ShardsBag, BlockBag, InRange, CompactTable, Times, HeldForCompaction, ReleasedAfterCompaction,
      CreateIn, Lists;
    var src := c.store.blocks[id];
    var table := CompactTable(src.byID, step);
    var lo, hi := Least(Times(table)), Greatest(Times(table));
    CompactShape(c, id, step);
    if Routable(c.shards, src.minTS) {
      ReplacedBag(c, id, table, lo, hi, series, rng);
      AddToBoth(MemBag(c.mem, series, rng),
                ShardsBag(CompactCore(c, id, step).0.store, CompactCore(c, id, step).0.shards.shards, series, rng),
                BlockBag(c.store, id, series, rng),
                ShardsBag(c.store, c.shards.shards, series, rng),
                multiset(InRange(PointsOf(table, series), rng)));
    } else {
      RefusedBag(c, id, table, lo, hi, series, rng);
    }
  }

  lemma AddToBoth<T>(m: multiset<T>, a: multiset<T>, b: multiset<T>, c: multiset<T>, d: multiset<T>)
    requires a + b == c + d
    ensures m + a + b == m + c + d
  {
    assert m + a + b == m + (a + b);
    assert m + c + d == m + (c + d);
  }

  lemma CompactShape(c: Core<real>, id: nat, step: int)
    requires CoreInvariant(c) && step > 0 && c.shards.shards != [] && c.shards.window > 0 && Openable(c.store, id)
    ensures (var src := c.store.blocks[id];
             var table := CompactTable(src.byID, step);
             var lo, hi := Least(Times(table)), Greatest(Times(table));
             && CompactCore(c, id, step)
                == if Routable(c.shards, src.minTS)
                   then (Core(c.mem, AddBlockToNewest(c.shards, c.store.nextID + 1),
                         Replaced(c.store, id, table, lo, hi)),
                         Ok(c.store.nextID + 1))
                   else (c.(store := CloseIn(CreateIn(HeldForCompaction(c.store, id), table, lo, hi), id)),
                         Err(BeforeActiveShard)))
  {
    hide ShardInvariant, MemInvariant, BelowNewestEnd, ListingGood, CompactTable, Times, HeldForCompaction,
      ReleasedAfterCompaction;
    InvariantShape(c.shards);
    var src := c.store.blocks[id];
    assert GoodBlock(src, c.shards.Newest().end);
    CompactedBounds(src.byID, step, src.minTS, src.maxTS);
    HeldSame(c.store, id);
  }

  lemma RefusedBag<V>(c: Core<V>, id: nat, table: Table<V>, lo: int, hi: int, series: nat, rng: QueryRange)
    requires CoreInvariant(c) && Openable(c.store, id)
    ensures ShardsBag(CloseIn(CreateIn(HeldForCompaction(c.store, id), table, lo, hi), id), c.shards.shards, series,
                      rng)
         == ShardsBag(c.store, c.shards.shards, series, rng)
  {
    hide CoreInvariant, IdsBag, AllListed, BlockBag, InRange;
    var ids := AllListed(c.shards.shards);
    var after := CloseIn(CreateIn(HeldForCompaction(c.store, id), table, lo, hi), id);
    forall x | x in ids ensures BlockBag(c.store, x, series, rng) == BlockBag(after, x, series, rng) {
      ListedIds(c, x);
      RefusedBlock(c.store, id, table, lo, hi, x, series, rng);
    }
    IdsBagFrame(c.store, after, ids, series, rng);
    ShardsBagIsIds(c.store, c.shards.shards, series, rng);
    ShardsBagIsIds(after, c.shards.shards, series, rng);
  }

  lemma RefusedBlock<V>(s: StoreV<V>, id: nat, table: Table<V>, lo: int, hi: int, x: nat, series: nat, rng: QueryRange)
    requires x <= s.nextID && Openable(s, id)
    ensures BlockBag(CloseIn(CreateIn(HeldForCompaction(s, id), table, lo, hi), id), x, series, rng)
         == BlockBag(s, x, series, rng)
  {
    hide InRange;
  }
}
