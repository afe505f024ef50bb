/** What a query collects, and how each operation changes it. */
module EngineQueries {
  import opened Model
  import opened Seqs
  import opened Memtable
  import opened Sharding
  import opened Storage
  import opened EngineState
  import opened EngineSteps

  // ----- collecting -----

  /** One block's share: nothing if it cannot be opened. */
  ghost function BlockBag<V>(s: StoreV<V>, id: nat, series: nat, rng: QueryRange): multiset<Point<V>> {
    if Openable(s, id) then multiset(InRange(PointsOf(s.blocks[id].byID, series), rng)) else multiset{}
  }

  ghost function IdsBag<V>(s: StoreV<V>, ids: seq<nat>, series: nat, rng: QueryRange): multiset<Point<V>> {
    if ids == [] then multiset{}
    else IdsBag(s, ids[..|ids| - 1], series, rng) + BlockBag(s, ids[|ids| - 1], series, rng)
  }

  ghost function ShardsBag<V>(s: StoreV<V>, shards: seq<ShardV>, series: nat, rng: QueryRange): multiset<Point<V>> {
    if shards == [] then multiset{}
    else ShardsBag(s, shards[..|shards| - 1], series, rng) + IdsBag(s, shards[|shards| - 1].blocks, series, rng)
  }

  ghost function MemBag<V>(m: Mem<V>, series: nat, rng: QueryRange): multiset<Point<V>> {
    multiset(InRange(PointsOf(m.byID, series), rng))
  }

  /** `collect`: the memtable and the blocks of the shards whose window overlaps the range. */
  ghost function CollectBag<V>(c: Core<V>, series: nat, rng: QueryRange): multiset<Point<V>> {
    MemBag(c.mem, series, rng) + ShardsBag(c.store, Filter(CoveringFilter(rng), c.shards.shards), series, rng)
  }

  /** The reference: the memtable and every listed block, whatever its shard's window. */
  ghost function FullBag<V>(c: Core<V>, series: nat, rng: QueryRange): multiset<Point<V>> {
    MemBag(c.mem, series, rng) + ShardsBag(c.store, c.shards.shards, series, rng)
  }

  lemma IdsBagSnoc<V>(s: StoreV<V>, ids: seq<nat>, id: nat, series: nat, rng: QueryRange)
    ensures IdsBag(s, ids + [id], series, rng) == IdsBag(s, ids, series, rng) + BlockBag(s, id, series, rng)
  {
    assert (ids + [id])[..|ids|] == ids;
  }

  lemma ShardsBagSnoc<V>(s: StoreV<V>, shards: seq<ShardV>, sh: ShardV, series: nat, rng: QueryRange)
    ensures ShardsBag(s, shards + [sh], series, rng)
         == ShardsBag(s, shards, series, rng) + IdsBag(s, sh.blocks, series, rng)
  {
    assert (shards + [sh])[..|shards|] == shards;
  }

  lemma TimeInTable<V>(t: Table<V>, series: nat, p: Point<V>)
    requires p in PointsOf(t, series)
    ensures p.ts in Times(t)
  {
    var i :| 0 <= i < |t[series]| && t[series][i] == p;
    assert t[series][i].ts in Times(t);
  }

  /** A block outside the range contributes nothing. */
  lemma BlockOutside<V>(s: StoreV<V>, id: nat, series: nat, rng: QueryRange)
    requires id in s.blocks ==> ExactBounds(Times(s.blocks[id].byID), s.blocks[id].minTS, s.blocks[id].maxTS)
    requires id in s.blocks ==> s.blocks[id].maxTS < rng.start || s.blocks[id].minTS >= rng.end
    ensures BlockBag(s, id, series, rng) == multiset{}
  {
    hide Times;
    if Openable(s, id) {
      var pts := PointsOf(s.blocks[id].byID, series);
      forall p | p in pts ensures !rng.Holds(p.ts) { TimeInTable(s.blocks[id].byID, series, p); }
      FilterNone(InsideOf(rng), pts);
    }
  }

  lemma {:induction false} IdsOutside<V>(s: StoreV<V>, ids: seq<nat>, series: nat, rng: QueryRange)
    requires forall id :: id in ids ==> BlockBag(s, id, series, rng) == multiset{}
    ensures IdsBag(s, ids, series, rng) == multiset{}
    decreases |ids|
  {
    hide BlockBag;
    if ids != [] {
      var n := |ids| - 1;
      assert ids[n] in ids;
      IdsOutside(s, ids[..n], series, rng);
    }
  }

  /** The block, if stored, has exact bounds inside the shard's window. */
  ghost predicate LiesIn<V>(s: StoreV<V>, sh: ShardV, id: nat) {
    id in s.blocks ==>
      && ExactBounds(Times(s.blocks[id].byID), s.blocks[id].minTS, s.blocks[id].maxTS)
      && sh.start <= s.blocks[id].minTS && s.blocks[id].maxTS < sh.end
  }

  lemma ShardOutside<V>(s: StoreV<V>, sh: ShardV, series: nat, rng: QueryRange)
    requires !Covers(sh, rng) && forall id :: id in sh.blocks ==> LiesIn(s, sh, id)
    ensures IdsBag(s, sh.blocks, series, rng) == multiset{}
  {
    hide BlockBag, Times;
    forall id | id in sh.blocks ensures BlockBag(s, id, series, rng) == multiset{} {
      assert LiesIn(s, sh, id);
      BlockOutside(s, id, series, rng);
    }
    IdsOutside(s, sh.blocks, series, rng);
  }

  lemma {:induction false} PrunedShards<V>(s: StoreV<V>, shards: seq<ShardV>, series: nat, rng: QueryRange)
    requires forall sh, id :: sh in shards && id in sh.blocks ==> LiesIn(s, sh, id)
    ensures ShardsBag(s, Filter(CoveringFilter(rng), shards), series, rng) == ShardsBag(s, shards, series, rng)
    decreases |shards|
  {
    hide LiesIn, IdsBag, Covers;
    if shards != [] {
      var before, sh := shards[..|shards| - 1], shards[|shards| - 1];
      assert shards == before + [sh];
      assert sh in shards;
      PrunedShards(s, before, series, rng);
      FilterSnoc(CoveringFilter(rng), before, sh);
      if Covers(sh, rng) {
        ShardsBagSnoc(s, Filter(CoveringFilter(rng), before), sh, series, rng);
      } else {
        ShardOutside(s, sh, series, rng);
      }
    }
  }

  /** Pruning by shard window loses nothing: every listed block lies inside its shard's window. */
  lemma PruningIsComplete<V>(c: Core<V>, series: nat, rng: QueryRange)
    requires CoreInvariant(c)
    ensures CollectBag(c, series, rng) == FullBag(c, series, rng)
  {
    hide ShardInvariant, MemInvariant, StoreInvariant, BelowNewestEnd, ListedOnce, Times, WellFormedTable, ExactBounds;
    InvariantShape(c.shards);
    forall sh, id | sh in c.shards.shards && id in sh.blocks ensures LiesIn(c.store, sh, id) {
      var i :| 0 <= i < |c.shards.shards| && c.shards.shards[i] == sh;
      assert ListedWell(c.shards.shards[i], c.store, id);
      if id in c.store.blocks { assert GoodBlock(c.store.blocks[id], c.shards.Newest().end); }
    }
    PrunedShards(c.store, c.shards.shards, series, rng);
  }

  /** All listed ids, shard by shard. */
  function AllListed(shards: seq<ShardV>): seq<nat> {
    if shards == [] then [] else AllListed(shards[..|shards| - 1]) + shards[|shards| - 1].blocks
  }

  lemma {:induction false} IdsBagConcat<V>(s: StoreV<V>, a: seq<nat>, b: seq<nat>, series: nat, rng: QueryRange)
    ensures IdsBag(s, a + b, series, rng) == IdsBag(s, a, series, rng) + IdsBag(s, b, series, rng)
    decreases |b|
  {
    hide BlockBag;
    if b == [] {
      assert a + b == a;
    } else {
      var n := |b| - 1;
      assert a + b == (a + b[..n]) + [b[n]];
      IdsBagConcat(s, a, b[..n], series, rng);
      IdsBagSnoc(s, a + b[..n], b[n], series, rng);
    }
  }

  lemma {:induction false} ShardsBagIsIds<V>(s: StoreV<V>, shards: seq<ShardV>, series: nat, rng: QueryRange)
    ensures ShardsBag(s, shards, series, rng) == IdsBag(s, AllListed(shards), series, rng)
    decreases |shards|
  {
    hide IdsBag;
    if shards == [] {
      NoIds(s, series, rng);
    } else {
      var n := |shards| - 1;
      ShardsBagIsIds(s, shards[..n], series, rng);
      IdsBagConcat(s, AllListed(shards[..n]), shards[n].blocks, series, rng);
    }
  }

  lemma NoIds<V>(s: StoreV<V>, series: nat, rng: QueryRange)
    ensures IdsBag(s, [], series, rng) == multiset{}
  {
  }

  ghost predicate Lists(shards: seq<ShardV>, id: nat) {
    exists i :: 0 <= i < |shards| && id in shards[i].blocks
  }

  ghost predicate DistinctIds(ids: seq<nat>) {
    forall a, b :: 0 <= a < b < |ids| ==> ids[a] != ids[b]
  }

  lemma {:induction false} ListedMember(shards: seq<ShardV>, id: nat)
    ensures id in AllListed(shards) <==> Lists(shards, id)
    decreases |shards|
  {
    if shards != [] {
      ListedMember(shards[..|shards| - 1], id);
    }
  }

  /** No block is counted twice. */
  lemma {:induction false} ListedDistinct(shards: seq<ShardV>)
    requires ListedOnce(shards)
    ensures DistinctIds(AllListed(shards))
    decreases |shards|
  {
    if shards != [] {
      var before, n := shards[..|shards| - 1], |shards| - 1;
      assert forall i :: 0 <= i < n ==> before[i] == shards[i];
      ListedDistinct(before);
      forall x | x in AllListed(before) ensures x !in shards[n].blocks {
        ListedMember(before, x);
      }
      DistinctConcat(AllListed(before), shards[n].blocks);
    }
  }

  lemma DistinctConcat(a: seq<nat>, b: seq<nat>)
    requires DistinctIds(a) && DistinctIds(b)
    requires forall x :: x in a ==> x !in b
    ensures DistinctIds(a + b)
  {
    var ab := a + b;
    forall i, j | 0 <= i < j < |ab| ensures ab[i] != ab[j] {
      if i < |a| <= j {
        assert ab[i] == a[i] && a[i] in a;
        assert ab[j] == b[j - |a|] && b[j - |a|] in b;
      }
    }
  }

  lemma ListingOnce<V>(c: Core<V>)
    requires CoreInvariant(c)
    ensures ListedOnce(c.shards.shards)
  {
  }

  /** A query finds the in-range points of the memtable and of every openable listed block, each
      block once. */
  lemma QueriesAreComplete<V>(c: Core<V>, series: nat, rng: QueryRange, id: nat)
    requires CoreInvariant(c)
    ensures CollectBag(c, series, rng)
         == MemBag(c.mem, series, rng) + IdsBag(c.store, AllListed(c.shards.shards), series, rng)
    ensures DistinctIds(AllListed(c.shards.shards))
    ensures id in AllListed(c.shards.shards) <==> Lists(c.shards.shards, id)
  {
    hide CoreInvariant, ListedOnce, IdsBag, AllListed;
    PruningIsComplete(c, series, rng);
    ShardsBagIsIds(c.store, c.shards.shards, series, rng);
    ListingOnce(c);
    ListedDistinct(c.shards.shards);
    ListedMember(c.shards.shards, id);
  }

  // ----- what a flush does to queries -----

  lemma {:induction false} IdsBagFrame<V>(a: StoreV<V>, b: StoreV<V>, ids: seq<nat>, series: nat, rng: QueryRange)
    requires forall id :: id in ids ==> BlockBag(a, id, series, rng) == BlockBag(b, id, series, rng)
    ensures IdsBag(a, ids, series, rng) == IdsBag(b, ids, series, rng)
    decreases |ids|
  {
    hide BlockBag;
    if ids != [] {
      var n := |ids| - 1;
      assert ids[n] in ids;
      IdsBagFrame(a, b, ids[..n], series, rng);
    }
  }

  lemma AllListedAdd(m: Shards, id: nat)
    requires m.shards != []
    ensures AllListed(AddBlockToNewest(m, id).shards) == AllListed(m.shards) + [id]
  {
    var n := |m.shards| - 1;
    var out := AddBlockToNewest(m, id).shards;
    assert out[..n] == m.shards[..n];
    Associate(AllListed(m.shards[..n]), m.shards[n].blocks, [id]);
  }

  /** Listing a fresh block adds exactly its points to every answer. */
  lemma NewBlockBag<V>(c: Core<V>, table: Table<V>, minTS: int, maxTS: int, series: nat, rng: QueryRange)
    requires CoreInvariant(c)
    ensures (var m := AddBlockToNewest(c.shards, c.store.nextID + 1);
             ShardsBag(CreateIn(c.store, table, minTS, maxTS), m.shards, series, rng)
             == ShardsBag(c.store, c.shards.shards, series, rng) + multiset(InRange(PointsOf(table, series), rng)))
  {
    hide ShardInvariant, MemInvariant, StoreInvariant, BelowNewestEnd, ListedOnce, GoodBlock, IdsBag, AllListed,
      InRange;
    InvariantShape(c.shards);
    var id, ids := c.store.nextID + 1, AllListed(c.shards.shards);
    var made := CreateIn(c.store, table, minTS, maxTS);
    forall x | x in ids ensures BlockBag(c.store, x, series, rng) == BlockBag(made, x, series, rng) {
      ListedMember(c.shards.shards, x);
      var i :| 0 <= i < |c.shards.shards| && x in c.shards.shards[i].blocks;
      assert ListedWell(c.shards.shards[i], c.store, x);
    }
    IdsBagFrame(c.store, made, ids, series, rng);
    AllListedAdd(c.shards, id);
    IdsBagSnoc(made, ids, id, series, rng);
    ShardsBagIsIds(c.store, c.shards.shards, series, rng);
    ShardsBagIsIds(made, AddBlockToNewest(c.shards, id).shards, series, rng);
  }

  /** After a flush, an answer has the kept points where it had the buffered ones. */
  lemma FlushBag<V>(c: Core<V>, series: nat, rng: QueryRange)
    requires CoreInvariant(c)
    ensures c.mem.points > 0 ==>
              FullBag(FlushPlain(c), series, rng)
              == multiset(InRange(PointsOf(KeptFrom(c.mem.byID, c.shards.Newest().start), series), rng))
              + ShardsBag(c.store, c.shards.shards, series, rng)
  {
    hide ShardInvariant, StoreInvariant, ListingGood, GoodBlock, ShardsBag, KeptFrom, CreateIn;
    InvariantShape(c.shards);
    var kept := KeptFrom(c.mem.byID, c.shards.Newest().start);
    if c.mem.points > 0 && kept != map[] {
      NewBlockBag(c, kept, Least(Times(kept)), Greatest(Times(kept)), series, rng);
    }
  }

  lemma KeptPoints<V>(t: Table<V>, start: int, series: nat)
    ensures PointsOf(KeptFrom(t, start), series) == Filter(AtOrAfter(start), PointsOf(t, series))
  {
    if series !in t { FilterNothing(AtOrAfter<V>(start)); }
  }

  /** A flush changes no answer exactly when the smallest buffered timestamp is at or after the
      newest shard's start. */
  lemma FlushKeepsAnswers<V>(c: Core<V>)
    requires CoreInvariant(c)
    ensures (forall series, rng :: FullBag(FlushPlain(c), series, rng) == FullBag(c, series, rng))
       <==> c.mem.points == 0 || c.mem.minTS >= c.shards.Newest().start
  {
    hide ShardInvariant, StoreInvariant, ListingGood, GoodBlock, KeptFrom, Times, ShardsBag, FlushPlain, InRange;
    InvariantShape(c.shards);
    var start := c.shards.Newest().start;
    if c.mem.points == 0 {
      FlushNothing(c);
    } else if c.mem.minTS >= start {
      forall series, rng ensures FullBag(FlushPlain(c), series, rng) == FullBag(c, series, rng) {
        FlushBag(c, series, rng);
        KeptPoints(c.mem.byID, start, series);
        forall p | p in PointsOf(c.mem.byID, series) ensures p.ts >= start { TimeInTable(c.mem.byID, series, p); }
        FilterAll(AtOrAfter(start), PointsOf(c.mem.byID, series));
      }
    } else {
      var series, rng := FlushLoses(c);
    }
  }

  lemma FlushNothing<V>(c: Core<V>)
    requires c.mem.points == 0 && c.shards.shards != []
    ensures FlushPlain(c) == c
  {
  }

  lemma TimeHasPoint<V>(t: Table<V>, ts: int) returns (series: nat, p: Point<V>)
    requires ts in Times(t)
    ensures p in PointsOf(t, series) && p.ts == ts
  {
    var s, i :| s in t && 0 <= i < |t[s]| && t[s][i].ts == ts;
    series, p := s, t[s][i];
  }

  /** A buffered point from before the newest window is in the answers before a flush and in
      none after it. */
  lemma FlushLoses<V>(c: Core<V>) returns (series: nat, rng: QueryRange)
    requires CoreInvariant(c) && c.mem.points > 0 && c.mem.minTS < c.shards.Newest().start
    ensures FullBag(FlushPlain(c), series, rng) != FullBag(c, series, rng)
  {
    hide ShardInvariant, StoreInvariant, ListingGood, GoodBlock, KeptFrom, Times, ShardsBag, FlushPlain, Filter;
    InvariantShape(c.shards);
    var start := c.shards.Newest().start;
    var p;
    series, p := TimeHasPoint(c.mem.byID, c.mem.minTS);
    rng := QueryRange(p.ts, p.ts + 1);
    FlushBag(c, series, rng);
    KeptPoints(c.mem.byID, start, series);
    var pts := PointsOf(c.mem.byID, series);
    var kept := Filter(AtOrAfter<V>(start), pts);
    forall q | q in kept ensures !rng.Holds(q.ts) { FilterMember(AtOrAfter(start), pts, q); }
    FilterNone(InsideOf(rng), kept);
    FilterMember(InsideOf(rng), pts, p);
    assert p in multiset(InRange(pts, rng));
    assert FullBag(c, series, rng)[p] > ShardsBag(c.store, c.shards.shards, series, rng)[p];
    assert FullBag(FlushPlain(c), series, rng)[p] == ShardsBag(c.store, c.shards.shards, series, rng)[p];
  }

  // ----- what a sweep does to queries -----

  /** A sweep changes no answer about time after its cutoff. */
  lemma SweepKeepsRecent<V>(c: Core<V>, cutoff: int, series: nat, rng: QueryRange)
    requires CoreInvariant(c) && rng.start > cutoff
    ensures FullBag(SweepCore(c, cutoff), series, rng) == FullBag(c, series, rng)
  {
    hide ShardInvariant, MemInvariant, StoreInvariant, BelowNewestEnd, ListingGood, IdsBag, AllListed, Times,
      BlockBag, ReclaimIn, MarkOld, ArchiveEnded;
    InvariantShape(c.shards);
    var after := SweepCore(c, cutoff);
    ArchivedListing(c.shards, cutoff);
    forall id ensures BlockBag(after.store, id, series, rng) == BlockBag(c.store, id, series, rng) {
      SweepArchivesOld(c, cutoff, id);
      SweptBlock(c, after.store, cutoff, id, series, rng);
    }
    IdsBagFrame(after.store, c.store, AllListed(c.shards.shards), series, rng);
    ShardsBagIsIds(c.store, c.shards.shards, series, rng);
    ShardsBagIsIds(after.store, after.shards.shards, series, rng);
  }

  lemma SweptBlock<V>(c: Core<V>, after: StoreV<V>, cutoff: int, id: nat, series: nat, rng: QueryRange)
    requires CoreInvariant(c) && rng.start > cutoff
    requires Openable(after, id) <==> Openable(c.store, id) && c.store.blocks[id].maxTS > cutoff
    requires Openable(after, id) ==> after.blocks[id] == c.store.blocks[id]
    ensures BlockBag(after, id, series, rng) == BlockBag(c.store, id, series, rng)
  {
    hide ShardInvariant, MemInvariant, StoreInvariant, BelowNewestEnd, ListingGood, Times, InRange;
    InvariantShape(c.shards);
    if Openable(c.store, id) && c.store.blocks[id].maxTS <= cutoff {
      assert GoodBlock(c.store.blocks[id], c.shards.Newest().end);
      BlockOutside(c.store, id, series, rng);
    }
  }

  lemma {:induction false} SameListing(a: seq<ShardV>, b: seq<ShardV>)
    requires |a| == |b| && forall i :: 0 <= i < |a| ==> a[i].blocks == b[i].blocks
    ensures AllListed(a) == AllListed(b)
    decreases |a|
  {
    if a != [] {
      SameListing(a[..|a| - 1], b[..|b| - 1]);
    }
  }

  lemma ArchivedListing(m: Shards, cutoff: int)
    ensures AllListed(ArchiveEnded(m, cutoff).shards) == AllListed(m.shards)
  {
    SameListing(ArchiveEnded(m, cutoff).shards, m.shards);
  }
}
