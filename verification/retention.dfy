/** `Retention`: archives blocks that ended before the cutoff. */
module Retaining {
  import opened Model
  import opened Memtable
  import opened Sharding
  import opened Storage
  import opened EngineState
  import opened EngineSteps

  /** A sweep that has visited the blocks in `done` so far. */
  function MarkSome<V>(s: StoreV<V>, cutoff: int, done: set<nat>): StoreV<V> {
    s.(blocks := map id | id in s.blocks ::
      if id in done && s.blocks[id].maxTS <= cutoff then ArchiveBlock(s.blocks[id]) else s.blocks[id])
  }

  /** The blocks a sweep looks at: those it can open. */
  function OpenIDs<V>(s: StoreV<V>): set<nat> {
    set id | id in s.blocks && !s.blocks[id].archived
  }

  function Scanned<V>(s: StoreV<V>, done: set<nat>): nat {
    |OpenIDs(s) * done|
  }

  lemma MarkNone<V>(s: StoreV<V>, cutoff: int)
    ensures MarkSome(s, cutoff, {}) == s && Scanned(s, {}) == 0
  {
  }

  lemma MarkAll<V>(s: StoreV<V>, cutoff: int)
    ensures MarkSome(s, cutoff, s.blocks.Keys) == MarkOld(s, cutoff)
    ensures Scanned(s, s.blocks.Keys) == |OpenIDs(s)|
  {
    assert OpenIDs(s) * s.blocks.Keys == OpenIDs(s);
  }

  lemma MarkOneMore<V>(s: StoreV<V>, cutoff: int, done: set<nat>, id: nat)
    requires id in s.blocks && id !in done
    ensures id in MarkSome(s, cutoff, done).blocks && MarkSome(s, cutoff, done).blocks[id] == s.blocks[id]
    ensures MarkSome(s, cutoff, done + {id})
         == if Openable(s, id) && s.blocks[id].maxTS <= cutoff then ArchiveIn(MarkSome(s, cutoff, done), id)
            else MarkSome(s, cutoff, done)
    ensures Openable(MarkSome(s, cutoff, done), id) == Openable(s, id)
    ensures Scanned(s, done + {id}) == Scanned(s, done) + (if Openable(s, id) then 1 else 0)
  {
    assert OpenIDs(s) * (done + {id}) == OpenIDs(s) * done + (if Openable(s, id) then {id} else {});
    if s.blocks[id].archived { assert ArchiveBlock(s.blocks[id]) == s.blocks[id]; }
  }

  lemma SweepCounts<V>(s: StoreV<V>, cutoff: int)
    ensures OpenIDs(s) == set id | id in s.blocks && !s.blocks[id].archived
    ensures Unclaimed(MarkOld(s, cutoff))
         == set id | id in s.blocks && (s.blocks[id].archived || s.blocks[id].maxTS <= cutoff) && s.blocks[id].refs == 0
  {
  }

  class Retention<V> {
    const store: Store<V>
    const shards: Manager
    const maxAge: int

    constructor (store: Store<V>, shards: Manager, maxAge: int)
      requires store.Valid() && shards.Valid() && store.Repr() !! shards.Repr()
      ensures Valid()
      ensures this.store == store && this.shards == shards && this.maxAge == maxAge
    {
      this.store, this.shards, this.maxAge := store, shards, maxAge;
    }

    ghost predicate Valid()
      reads store, shards
    {
      store.Valid() && shards.Valid() && store.Repr() !! shards.Repr()
    }

    ghost function View(): Core<V>
      reads store, store.Repr(), shards, shards.Repr()
    {
      Core(EmptyMem(), shards.View(), store.View())
    }

    /** `Sweep`. */
    method Sweep(now: int) returns (scanned: nat, removed: nat)
      requires Valid()
      modifies store.Repr(), shards.Repr()
      ensures Valid()
      ensures View() == SweepCore(old(View()), now - maxAge)
      ensures (var blocks := old(store.View()).blocks;
               && scanned == |set id | id in blocks && !blocks[id].archived|
               && removed == |set id | id in blocks && (blocks[id].archived || blocks[id].maxTS <= now - maxAge)
                                       && blocks[id].refs == 0|)
    {
      hide ArchiveEnded, ReclaimIn, MarkOld, Unclaimed, OpenIDs, Manager.Valid, Manager.View, Store.Valid, Store.View;
      SweepCounts(store.View(), now - maxAge);
      scanned := MarkPass(now - maxAge);
      removed := store.Reclaim();
      var archived := shards.ArchiveOlderThan(now - maxAge);
    }

    /** The loop of `Sweep` over every block, in any order. */
    method MarkPass(cutoff: int) returns (scanned: nat)
      requires store.Valid()
      modifies store.Repr()
      ensures store.Valid() && store.Repr() == old(store.Repr())
      ensures store.View() == MarkOld(old(store.View()), cutoff) && scanned == |OpenIDs(old(store.View()))|
    {
      hide MarkSome, MarkOld, OpenIDs, Scanned, Openable, ArchiveIn, Store.Valid, Store.Repr, Store.Shown;
      var rest := store.List();
      ghost var s, done: set<nat> := store.View(), {};
      scanned := 0;
      MarkNone(s, cutoff);
      while rest != {}
        invariant store.Valid() && store.Repr() == old(store.Repr())
        invariant rest <= s.blocks.Keys && done == s.blocks.Keys - rest
        invariant store.View() == MarkSome(s, cutoff, done)
        invariant scanned == Scanned(s, done)
        decreases |rest|
      {
        var id :| id in rest;
        MarkOneMore(s, cutoff, done, id);
        var seen := MarkIfOld(id, cutoff);
        if seen { scanned := scanned + 1; }
        rest, done := rest - {id}, done + {id};
      }
      assert done == s.blocks.Keys;
      MarkAll(s, cutoff);
    }

    /** One turn of that loop. */
    method MarkIfOld(id: nat, cutoff: int) returns (seen: bool)
      requires store.Valid()
      modifies store.Repr()
      ensures store.Valid() && store.Repr() == old(store.Repr())
      ensures seen == Openable(old(store.View()), id)
      ensures store.View() == if seen
                                 && old(store.View()).blocks[id].maxTS <= cutoff then ArchiveIn(old(store.View()), id)
                              else old(store.View())
    {
      hide ArchiveIn, Store.Valid, Store.View;
      var maxTS := MaxOf(id);
      seen := maxTS.Some?;
      if seen && maxTS.value <= cutoff {
        store.MarkArchived(id);
      }
    }

    /** Opens a block to read its bounds, and closes it again. */
    method MaxOf(id: nat) returns (maxTS: Option<int>)
      requires store.Valid()
      modifies store.Repr()
      ensures store.Valid() && store.View() == old(store.View()) && store.Repr() == old(store.Repr())
      ensures maxTS == if Openable(store.View(), id) then Some(store.View().blocks[id].maxTS) else None
    {
      hide Store.Valid, Store.View;
      var got := store.Open(id);
      if got.Err? || got.value.None? {
        return None;
      }
      var b := got.value.value;
      maxTS := Some(b.maxTS);
      store.Close(b);
      OpenThenClose(old(store.View()), id);
    }
  }
}
