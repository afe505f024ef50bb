/** `Ingest`: the write path in place. */
module Ingesting {
  import opened Bytes
  import opened Model
  import opened Seqs
  import opened Memtable
  import opened Sharding
  import opened Storage
  import opened EngineState
  import opened EngineSteps
  import opened TableBounds
  import opened Labels
  import opened SeriesIndex
  import opened WalRecord
  import opened Wal
  import opened IngestState

  // ----- groups, as a map and the order its keys were met in -----

  type Window = (int, int)

  ghost predicate Filed(order: seq<Window>, groups: map<Window, Table<U64>>) {
    && (forall i, j :: 0 <= i < j < |order| ==> order[i] != order[j])
    && (forall k :: k in groups <==> k in order)
  }

  ghost function GroupsOf(order: seq<Window>, groups: map<Window, Table<U64>>): (gs: seq<Group<U64>>)
    requires forall k :: k in order ==> k in groups
    ensures |gs| == |order|
  {
    seq(|order|, i requires 0 <= i < |order| => Group(order[i].0, order[i].1, groups[order[i]]))
  }

  lemma NoGroups()
    ensures Filed([], map[]) && GroupsOf([], map[]) == []
  {
  }

  /** Filing a point under its window is what `AddToGroup` does on the list of groups. */
  lemma {:induction false} FileIsAdd(order: seq<Window>, groups: map<Window, Table<U64>>, key: Window, p: Point<U64>)
    requires Filed(order, groups)
    ensures (var order' := if key in groups then order else order + [key];
             var groups' := groups[key := AppendPoint(if key in groups then groups[key] else map[], p)];
             && Filed(order', groups')
             && GroupsOf(order', groups') == AddToGroup(GroupsOf(order, groups), key.0, key.1, p))
  {
    hide AppendPoint;
    AddFrom(order, groups, key, p);
  }

  /** The same on any tail of the order. */
  lemma {:induction false} AddFrom(order: seq<Window>, groups: map<Window, Table<U64>>, key: Window, p: Point<U64>)
    requires forall i, j :: 0 <= i < j < |order| ==> order[i] != order[j]
    requires forall k :: k in order ==> k in groups
    ensures (var order' := if key in order then order else order + [key];
             var groups' := groups[key := AppendPoint(if key in order then groups[key] else map[], p)];
             GroupsOf(order', groups') == AddToGroup(GroupsOf(order, groups), key.0, key.1, p))
    decreases |order|
  {
    hide AppendPoint;
    var gs := GroupsOf(order, groups);
    if order != [] {
      var tail := order[1..];
      assert GroupsOf(tail, groups) == gs[1..];
      var groups' := groups[key := AppendPoint(if key in order then groups[key] else map[], p)];
      if order[0] == key {
        assert GroupsOf(order, groups') == [gs[0].(table := AppendPoint(gs[0].table, p))] + gs[1..];
      } else {
        assert key in tail <==> key in order;
        AddFrom(tail, groups, key, p);
        assert (order + [key])[1..] == tail + [key];
        var order' := if key in order then order else order + [key];
        assert order'[0] == order[0];
        assert GroupsOf(order', groups') == [gs[0]] + GroupsOf(order'[1..], groups');
      }
    }
  }

  /** The body of `groupByShard`'s inner loop: route, skip on an error, file under the window. */
  method GroupOne(shards: Manager, seriesID: nat, p: Point<U64>, order: seq<Window>, groups: map<Window, Table<U64>>)
    returns (order': seq<Window>, groups': map<Window, Table<U64>>)
    requires shards.Valid() && Filed(order, groups) && p.series == seriesID
    modifies shards.Repr()
    ensures shards.Valid() && forall o :: o in shards.Repr() ==> o in old(shards.Repr()) || fresh(o)
    ensures Filed(order', groups')
    ensures Grouping(shards.View(), GroupsOf(order', groups'))
         == GroupPoint(Grouping(old(shards.View()), GroupsOf(order, groups)), p)
  {
    hide Filed, GroupsOf, AddToGroup, RouteShards, Manager.Valid, Manager.Repr, Manager.View;
    order', groups' := order, groups;
    var r := shards.Route(p.ts);
    if r.Err? {
      return;
    }
    shards.NewestInView();
    var key := (r.value.start, r.value.end);
    FileIsAdd(order, groups, key, p);
    var table: Table<U64> := map[];
    if key in groups {
      table := groups[key];
    } else {
      order' := order + [key];
    }
    groups' := groups[key := table[seriesID := (if seriesID in table then table[seriesID] else []) + [p]]];
  }

  /** The inner loop, over one series' points. */
  method GroupSeries(shards: Manager, seriesID: nat, pts: seq<Point<U64>>, order: seq<Window>,
                     groups: map<Window, Table<U64>>)
    returns (order': seq<Window>, groups': map<Window, Table<U64>>)
    requires shards.Valid() && Filed(order, groups) && forall p :: p in pts ==> p.series == seriesID
    modifies shards.Repr()
    ensures shards.Valid() && forall o :: o in shards.Repr() ==> o in old(shards.Repr()) || fresh(o)
    ensures Filed(order', groups')
    ensures Grouping(shards.View(), GroupsOf(order', groups'))
         == GroupPoints(Grouping(old(shards.View()), GroupsOf(order, groups)), pts)
  {
    hide GroupsOf, GroupPoint, GroupPoints, Manager.Valid, Manager.Repr, Manager.Shown;
    order', groups' := order, groups;
    ghost var g := Grouping(shards.View(), GroupsOf(order, groups));
    GroupNoPoints(g);
    for i := 0 to |pts|
      invariant shards.Valid() && forall o :: o in shards.Repr() ==> o in old(shards.Repr()) || fresh(o)
      invariant Filed(order', groups')
      invariant Grouping(shards.View(), GroupsOf(order', groups')) == GroupPoints(g, pts[..i])
    {
      order', groups' := GroupOne(shards, seriesID, pts[i], order', groups');
      GroupPointsSnoc(g, pts[..i], pts[i]);
      assert pts[..i + 1] == pts[..i] + [pts[i]];
    }
    assert pts[..|pts|] == pts;
  }

  /** `groupByShard`: the groups in the order their windows were first met. `visited` is the order
      the map was walked in. */
  method GroupByShard(shards: Manager, byID: Table<U64>)
    returns (out: seq<Table<U64>>, ghost groups: seq<Group<U64>>, ghost visited: seq<nat>)
    requires shards.Valid() && WellFormedTable(byID)
    modifies shards.Repr()
    ensures shards.Valid() && forall o :: o in shards.Repr() ==> o in old(shards.Repr()) || fresh(o)
    ensures IsOrder(visited, byID)
    ensures Grouping(shards.View(), groups) == GroupPoints(Grouping(old(shards.View()), []), Flatten(byID, visited))
    ensures out == TablesOf(groups)
  {
    hide GroupsOf, GroupPoints, Flatten, NoRepeats, Visit, Manager.Valid, Manager.Repr, Manager.Shown;
    var order: seq<Window>, filed: map<Window, Table<U64>> := [], map[];
    ghost var g := Grouping(shards.View(), []);
    NoGroups();
    GroupNoPoints(g);
    visited := [];
    NothingVisited(byID);
    var rest := byID.Keys;
    while rest != {}
      invariant shards.Valid() && forall o :: o in shards.Repr() ==> o in old(shards.Repr()) || fresh(o)
      invariant rest <= byID.Keys && NoRepeats(visited) && forall k: nat :: k in visited <==> k in byID && k !in rest
      invariant Filed(order, filed)
      invariant Grouping(shards.View(), GroupsOf(order, filed)) == GroupPoints(g, Flatten(byID, visited))
      decreases |rest|
    {
      var seriesID :| seriesID in rest;
      rest := rest - {seriesID};
      order, filed := GroupSeries(shards, seriesID, byID[seriesID], order, filed);
      FlattenSnoc(byID, visited, seriesID);
      GroupPointsConcat(g, Flatten(byID, visited), byID[seriesID]);
      visited := Visit(visited, seriesID);
    }
    OrderOf(visited, byID);
    groups := GroupsOf(order, filed);
    out := ListGroups(order, filed);
  }

  lemma NothingVisited(t: Table<U64>)
    ensures NoRepeats<nat>([]) && Flatten(t, []) == []
  {
  }

  function TablesOf(groups: seq<Group<U64>>): (tables: seq<Table<U64>>)
    ensures |tables| == |groups|
  {
    seq(|groups|, i requires 0 <= i < |groups| => groups[i].table)
  }

  method ListGroups(order: seq<Window>, groups: map<Window, Table<U64>>) returns (out: seq<Table<U64>>)
    requires Filed(order, groups)
    ensures out == TablesOf(GroupsOf(order, groups))
  {
    out := [];
    for i := 0 to |order|
      invariant |out| == i && forall j :: 0 <= j < i ==> out[j] == groups[order[j]]
    {
      out := out + [groups[order[i]]];
    }
  }

  /** `groupMinMax`. */
  method GroupMinMax(group: Table<U64>) returns (minTS: int, maxTS: int)
    ensures minTS == EngineState.Least(Times(group)) && maxTS == Greatest(Times(group))
  {
    hide Times, TimesOf, Bounds;
    minTS, maxTS := 0, 0;
    var first := true;
    var rest := group.Keys;
    ghost var seen: Table<U64> := map[];
    StartBounds<U64>();
    while rest != {}
      invariant rest <= group.Keys
      invariant seen == map s | s in group && s !in rest :: group[s]
      invariant Bounds(Times(seen), first, minTS, maxTS)
      decreases |rest|
    {
      var s :| s in rest;
      rest := rest - {s};
      TimesGrow(seen, s, group[s]);
      first, minTS, maxTS := Widen(group[s], first, minTS, maxTS, Times(seen));
      seen := seen[s := group[s]];
    }
    assert seen == group;
    BoundsAre(Times(group), first, minTS, maxTS);
  }

  /** The body of `flushLocked`'s loop. */
  method StoreOneGroup(shards: Manager, store: Store<U64>, group: Table<U64>, ghost g: Group<U64>) returns (ok: bool)
    requires shards.Valid() && store.Valid() && store.Repr() !! shards.Repr() && g.table == group
    modifies shards.Repr(), store
    ensures shards.Valid() && store.Valid() && store.Repr() !! shards.Repr()
    ensures forall o :: o in shards.Repr() ==> o in old(shards.Repr()) || fresh(o)
    ensures forall o :: o in store.Repr() ==> o in old(store.Repr()) || fresh(o)
    ensures Flushed(shards.View(), store.View(), ok)
         == StoreGroup(Flushed(old(shards.View()), old(store.View()), true), g)
  {
    hide CreateIn, RouteShards, AddBlockToNewest, Times, Manager.View, Manager.Valid, Store.Valid, Store.View;
    var minTS, maxTS := GroupMinMax(group);
    var block := store.CreateSealed(group, minTS, maxTS);
    ghost var mine := store.Repr();
    assert mine !! shards.Repr();
    var routed := shards.Route(minTS);
    assert store.Repr() == mine && mine !! shards.Repr();
    if routed.Err? {
      return false;
    }
    shards.AddToNewest(routed.value, block.id);
    ok := true;
  }

  /** `flushLocked`'s loop over the groups, up to the first error. */
  method StoreAllGroups(shards: Manager, store: Store<U64>, tables: seq<Table<U64>>, ghost groups: seq<Group<U64>>)
    returns (ok: bool)
    requires shards.Valid() && store.Valid() && store.Repr() !! shards.Repr() && tables == TablesOf(groups)
    modifies shards.Repr(), store.Repr()
    ensures shards.Valid() && store.Valid() && store.Repr() !! shards.Repr()
    ensures forall o :: o in shards.Repr() ==> o in old(shards.Repr()) || fresh(o)
    ensures forall o :: o in store.Repr() ==> o in old(store.Repr()) || fresh(o)
    ensures Flushed(shards.View(), store.View(), ok)
         == StoreGroups(Flushed(old(shards.View()), old(store.View()), true), groups)
  {
    hide StoreGroup, StoreGroups, Manager.Valid, Manager.Repr, Manager.Shown, Store.Valid, Store.Repr, Store.Shown;
    ghost var f := Flushed(shards.View(), store.View(), true);
    if groups != [] { StoreGroupsMore(f, groups, 0); }
    assert groups[..0] == [];
    StoreNone(f);
    for i := 0 to |tables|
      invariant shards.Valid() && store.Valid() && store.Repr() !! shards.Repr()
      invariant forall o :: o in shards.Repr() ==> o in old(shards.Repr()) || fresh(o)
      invariant forall o :: o in store.Repr() ==> o in old(store.Repr()) || fresh(o)
      invariant Flushed(shards.View(), store.View(), true) == StoreGroups(f, groups[..i])
    {
      StoreGroupsMore(f, groups, i);
      ok := StoreOneGroup(shards, store, tables[i], groups[i]);
      if !ok {
        StoreStops(f, groups, i + 1);
        return;
      }
    }
    assert groups[..|groups|] == groups;
    ok := true;
  }

  /** The middle of `flushLocked`: a copied snapshot is grouped, then stored. */
  method GroupAndStore(shards: Manager, store: Store<U64>, raw: Table<U64>) returns (ok: bool, ghost order: seq<nat>)
    requires shards.Valid() && store.Valid() && store.Repr() !! shards.Repr() && WellFormedTable(raw)
    modifies shards.Repr(), store.Repr()
    ensures shards.Valid() && store.Valid() && store.Repr() !! shards.Repr()
    ensures forall o :: o in shards.Repr() ==> o in old(shards.Repr()) || fresh(o)
    ensures forall o :: o in store.Repr() ==> o in old(store.Repr()) || fresh(o)
    ensures IsOrder(order, raw)
    ensures (var g := GroupPoints(Grouping(old(shards.View()), []), Flatten(raw, order));
             Flushed(shards.View(), store.View(), ok)
             == StoreGroups(Flushed(g.shards, old(store.View()), true), g.groups))
  {
    hide WellFormedTable, GroupPoints, StoreGroups, Flatten, IsOrder, Manager.Valid, Manager.View, Store.Valid,
      Store.View;
    var tables, groups, visited := GroupByShard(shards, raw);
    ok := StoreAllGroups(shards, store, tables, groups);
    order := visited;
  }

  // ----- resolving a series -----

  /** The labels the index sees: values without surrounding white space. */
  function Trimmed(labels: LabelSet): LabelSet {
    map k | k in labels :: TrimSpace(labels[k])
  }

  /** What `SeriesOf` does to the index: a bad name or label key changes nothing; otherwise the
      series under the trimmed labels is looked up, and registered if it is new. */
  ghost function SeriesOfIn(ix: IndexV, name: string, labels: LabelSet): (IndexV, Result<SeriesMeta>) {
    if !IsName(name) then (ix, Err(InvalidName))
    else if exists k :: k in labels && !IsLabelKey(k) then (ix, Err(InvalidLabel))
    else
      RegisterFinds(ix, name, Trimmed(labels));
      (RegisterIn(ix, name, Trimmed(labels)),
       Ok(LookupIn(RegisterIn(ix, name, Trimmed(labels)), name, Trimmed(labels)).value))
  }

  lemma RegisterFinds(ix: IndexV, name: string, labels: LabelSet)
    ensures LookupIn(RegisterIn(ix, name, labels), name, labels).Some?
  {
    hide KeyOf;
  }

  /** Two samples go to the same series exactly when their names agree and their labels agree up to
      white space around the values, whatever else the index holds, as long as no value could be taken
      for another label. */
  lemma SameSeries(ix: IndexV, n1: string, l1: LabelSet, n2: string, l2: LabelSet)
    requires IndexInvariant(ix)
    requires SeriesOfIn(ix, n1, l1).1.Ok? && SeriesOfIn(SeriesOfIn(ix, n1, l1).0, n2, l2).1.Ok?
    requires QuietValues(Trimmed(l1)) && QuietValues(Trimmed(l2))
    ensures (var (ix1, first) := SeriesOfIn(ix, n1, l1);
             var (ix2, second) := SeriesOfIn(ix1, n2, l2);
             && IndexInvariant(ix2)
             && (first.value.id == second.value.id
                 <==> n1 == n2 && l1.Keys == l2.Keys
                      && forall k :: k in l1 && k in l2 ==> TrimSpace(l1[k]) == TrimSpace(l2[k])))
  {
    SameTrimmed(l1, l2);
    hide KeyOf, IsName, IsLabelKey, TrimSpace, IndexInvariant, RegisterIn, LookupIn, QuietValues, Sanitized;
    var ix1 := SeriesOfIn(ix, n1, l1).0;
    var ix2 := SeriesOfIn(ix1, n2, l2).0;
    RegisterKeeps(ix, n1, Trimmed(l1));
    RegisterKeeps(ix1, n2, Trimmed(l2));
    SanitizedLabels(n1, l1);
    SanitizedLabels(n2, l2);
    RegisterFrame(ix1, n2, Trimmed(l2), n1, Trimmed(l1));
    SameIdSameKey(ix2, n1, Trimmed(l1), n2, Trimmed(l2));
    if KeyOf(n1, Trimmed(l1)) == KeyOf(n2, Trimmed(l2)) { QuietInjective(n1, Trimmed(l1), n2, Trimmed(l2)); }
  }

  lemma SameTrimmed(l1: LabelSet, l2: LabelSet)
    ensures Trimmed(l1) == Trimmed(l2)
       <==> l1.Keys == l2.Keys && forall k :: k in l1 && k in l2 ==> TrimSpace(l1[k]) == TrimSpace(l2[k])
  {
    hide TrimSpace;
    if Trimmed(l1) == Trimmed(l2) {
      assert l1.Keys == Trimmed(l1).Keys == Trimmed(l2).Keys == l2.Keys;
      forall k | k in l1 && k in l2 ensures TrimSpace(l1[k]) == TrimSpace(l2[k]) { assert k in Trimmed(l1); }
    }
  }

  lemma SanitizedLabels(name: string, labels: LabelSet)
    requires IsName(name) && forall k :: k in labels ==> IsLabelKey(k)
    ensures Sanitized(name, Trimmed(labels))
  {
    hide IsName, IsLabelKey, TrimSpace;
    forall k | k in labels ensures TrimSpace(TrimSpace(labels[k])) == TrimSpace(labels[k])
    { TrimIdempotent(labels[k]); }
  }

  // ----- the pipeline -----

  class Ingest {
    const idx: Index
    const wal: WAL
    const mem: MemTable<U64>
    const shards: Manager
    const store: Store<U64>
    const flushThreshold: int
    var lastFlushSeq: U64

    ghost predicate Apart()
      reads mem`current, shards`shards, store`blocks, wal`segments
    {
      {this, idx} !! {mem, mem.current} !! shards.Repr() !! store.Repr() !! wal.Repr()
    }

    ghost predicate Valid()
      reads idx, mem`current, shards`shards, store`blocks, store`nextID, wal`segments
    {
      idx.Valid() && wal.Valid() && shards.Valid() && store.Valid() && Apart()
    }

    ghost function View(): Sys
      reads this, mem, mem.current, shards, shards.Repr(), store, store.Repr(), wal, wal.Repr()
    {
      Sys(Core(mem.View(), shards.View(), store.View()), wal.View(), lastFlushSeq)
    }

    constructor (idx: Index, wal: WAL, shards: Manager, store: Store<U64>, flushThreshold: int)
      requires idx.Valid() && wal.Valid() && shards.Valid() && store.Valid()
      requires {idx} !! shards.Repr() !! store.Repr() !! wal.Repr()
      ensures Valid() && this.idx == idx && this.wal == wal && this.shards == shards && this.store == store
      ensures View() == Sys(Core(EmptyMem(), shards.View(), store.View()), wal.View(), 0)
      ensures this.flushThreshold == if flushThreshold <= 0 then 4096 else flushThreshold
    {
      this.idx, this.wal, this.shards, this.store := idx, wal, shards, store;
      this.flushThreshold := if flushThreshold <= 0 then 4096 else flushThreshold;
      mem := new MemTable();
      lastFlushSeq := 0;
    }

    /** `SeriesOf`. */
    method SeriesOf(name: string, labels: LabelSet) returns (r: Result<SeriesMeta>)
      requires idx.Valid()
      modifies idx
      ensures idx.Valid() && (idx.View(), r) == SeriesOfIn(old(idx.View()), name, labels)
      ensures r == Err(InvalidName) <==> !IsName(name)
      ensures r == Err(InvalidLabel) <==> IsName(name) && exists k :: k in labels && !IsLabelKey(k)
    {
      hide KeyOf, IsName, IsLabelKey, TrimSpace;
      var ok := ValidName(name);
      if !ok {
        return Err(InvalidName);
      }
      var clean := SanitizeLabels(labels);
      if clean.Err? {
        return Err(clean.error);
      }
      assert clean.value == Trimmed(labels);
      var found := idx.Lookup(name, clean.value);
      if found.Some? {
        return Ok(found.value);
      }
      var meta, created := idx.Register(name, clean.value);
      r := Ok(meta);
    }

    /** The memtable, the shards and the store gained fresh objects only. */
    twostate predicate Grown()
      reads mem`current, shards`shards, store`blocks, wal`segments
    {
      && (mem.current == old(mem.current) || fresh(mem.current))
      && (forall o :: o in shards.Repr() ==> o in old(shards.Repr()) || fresh(o))
      && (forall o :: o in store.Repr() ==> o in old(store.Repr()) || fresh(o))
      && (forall o :: o in wal.Repr() ==> o in old(wal.Repr()) || fresh(o))
    }

    /** `flushLocked` up to the log: the snapshot is taken out, grouped, and stored. */
    method FlushMem() returns (ok: bool, ghost order: seq<nat>)
      requires shards.Valid() && store.Valid() && WellFormedTable(mem.View().byID) && mem.points > 0
      requires {mem, mem.current} !! shards.Repr() !! store.Repr()
      modifies mem, mem.current, shards.Repr(), store.Repr()
      ensures shards.Valid() && store.Valid()
      ensures {mem, mem.current} !! shards.Repr() !! store.Repr()
      ensures fresh(mem.current)
      ensures forall o :: o in shards.Repr() ==> o in old(shards.Repr()) || fresh(o)
      ensures forall o :: o in store.Repr() ==> o in old(store.Repr()) || fresh(o)
      ensures IsOrder(order, old(mem.View()).byID)
      ensures (Core(mem.View(), shards.View(), store.View()), ok)
           == FlushCore(Core(old(mem.View()), old(shards.View()), old(store.View())), order)
    {
      hide WellFormedTable, GroupPoints, StoreGroups, Flatten, IsOrder, Manager.Valid, Manager.View, Store.Valid,
        Store.View;
      var snap := mem.Flush();
      var raw := snap.RawCopy();
      ok, order := GroupAndStore(shards, store, raw);
      snap.Release();
    }

    /** The end of `flushLocked`: the watermark moves past `seqNo` and the log is truncated. */
    method CutLog(seqNo: U64)
      requires wal.Valid()
      modifies wal.Repr()
      ensures wal.Valid() && forall o :: o in wal.Repr() ==> o in old(wal.Repr()) || fresh(o)
      ensures wal.View() == TruncateToLog(wal.crc, SetReplayStartLog(old(wal.View()), Inc64(seqNo)), seqNo)
    {
      hide TruncateToLog, SetReplayStartLog, WAL.View;
      wal.SetReplayStart(Inc64(seqNo));
      wal.TruncateTo(seqNo);
    }

    method AdvanceLog(seqNo: U64)
      requires Valid()
      modifies this`lastFlushSeq, wal.Repr()
      ensures Valid() && Grown() && shards.Repr() == old(shards.Repr()) && store.Repr() == old(store.Repr())
      ensures mem.current == old(mem.current)
      ensures View() == Sys(old(View()).core,
                            TruncateToLog(wal.crc, SetReplayStartLog(old(View()).log, Inc64(seqNo)), seqNo), seqNo)
    {
      hide TruncateToLog, SetReplayStartLog, WAL.View, WAL.Valid, Manager.Valid, Manager.View, Store.Valid, Store.View;
      lastFlushSeq := seqNo;
      CutLog(seqNo);
    }

    /** `flushLocked`. */
    method FlushLocked(seqNo: U64) returns (ok: bool, ghost order: seq<nat>)
      requires Valid() && MemInvariant(mem.View())
      modifies this`lastFlushSeq, mem, mem.current, shards.Repr(), store.Repr(), wal.Repr()
      ensures Valid() && Grown()
      ensures IsOrder(order, old(mem.View()).byID)
      ensures (View(), ok) == FlushLockedSys(wal.crc, old(View()), seqNo, order)
    {
      hide IsOrder, FlushLockedSys, MemInvariant, Manager.Valid, Manager.View, Store.Valid, Store.View, WAL.Valid,
        WAL.View;
      if mem.points == 0 {
        order := AnOrder(mem.View().byID.Keys);
        OrderOf(order, mem.View().byID);
        NothingBuffered(wal.crc, View(), seqNo, order);
        return true, order;
      }
      ok, order := FlushBuffered(seqNo);
    }

    lemma NothingBuffered(crc: Checksum, s: Sys, seqNo: U64, order: seq<nat>)
      requires Running(s) && s.core.mem.points == 0
      ensures FlushLockedSys(crc, s, seqNo, order) == (s, true)
    {
    }

    lemma Started()
      requires Valid()
      ensures Running(View()) && View().core.mem.points == mem.points
    {
    }

    /** `flushLocked` past its early return, up to the log. */
    method StoreBuffered() returns (ok: bool, ghost order: seq<nat>)
      requires Valid() && MemInvariant(mem.View()) && mem.points > 0
      modifies mem, mem.current, shards.Repr(), store.Repr()
      ensures Valid() && Grown() && wal.Repr() == old(wal.Repr())
      ensures IsOrder(order, old(mem.View()).byID)
      ensures (View().core, ok) == FlushCore(old(View()).core, order)
      ensures View() == old(View()).(core := View().core)
    {
      hide IsOrder, FlushCore, WellFormedTable, Times, Manager.Valid, Manager.View, Store.Valid, Store.View, WAL.Valid,
        WAL.View;
      ok, order := FlushMem();
    }

    method FlushBuffered(seqNo: U64) returns (ok: bool, ghost order: seq<nat>)
      requires Valid() && MemInvariant(mem.View()) && mem.points > 0
      modifies this`lastFlushSeq, mem, mem.current, shards.Repr(), store.Repr(), wal.Repr()
      ensures Valid() && Grown()
      ensures IsOrder(order, old(mem.View()).byID)
      ensures (View(), ok) == FlushLockedSys(wal.crc, old(View()), seqNo, order)
    {
      hide IsOrder, FlushCore, TruncateToLog, SetReplayStartLog, MemInvariant, Ingest.View, Ingest.Valid;
      Started();
      ok, order := StoreBuffered();
      if !ok {
        return;
      }
      AdvanceLog(seqNo);
    }

    /** `Flush`. */
    method Flush() returns (ok: bool, ghost order: seq<nat>)
      requires Valid() && MemInvariant(mem.View())
      modifies this`lastFlushSeq, mem, mem.current, shards.Repr(), store.Repr(), wal.Repr()
      ensures Valid() && Grown()
      ensures IsOrder(order, old(mem.View()).byID)
      ensures (View(), ok) == FlushSys(wal.crc, old(View()), order)
    {
      hide IsOrder, FlushLockedSys, MemInvariant, Manager.Valid, Manager.View, Store.Valid, Store.View, WAL.Valid;
      assert wal.View().nextSeq == wal.nextSeq;
      if wal.nextSeq == 0 {
        order := AnOrder(mem.View().byID.Keys);
        OrderOf(order, mem.View().byID);
        return true, order;
      }
      ok, order := FlushLocked(wal.nextSeq - 1);
    }

    /** The shards take the timestamp, and one more point makes no flush due. */
    ghost predicate Quietly(s: Sys, ts: int)
    {
      && s.core.shards.shards != [] && ts >= s.core.shards.Newest().start
      && s.core.mem.points + 1 < flushThreshold
    }

    /** `Append`: the series, the log, the route, the memtable, and a flush when it is full. */
    method Append(name: string, labels: LabelSet, ts: I64, value: U64)
      returns (error: Option<Error>, ghost order: seq<nat>)
      requires Valid() && MemInvariant(mem.View()) && IndexInvariant(idx.View()) && idx.View().nextID <= MAX_U64
      modifies idx, this`lastFlushSeq, mem, mem.current, shards.Repr(), store.Repr(), wal.Repr()
      ensures Valid() && Grown()
      ensures idx.View() == SeriesOfIn(old(idx.View()), name, labels).0
      ensures match SeriesOfIn(old(idx.View()), name, labels).1
              case Err(e) => error == Some(e) && View() == old(View())
              case Ok(meta) =>
                && meta.id <= MAX_U64
                && var rec := Record(0, meta.id, ts, value);
                && IsOrder(order, AppendCore(old(View()).core, PointOf(rec)).mem.byID)
                && (View(), error) == AppendSys(wal.crc, old(View()), rec, flushThreshold, order)
                && (Quietly(old(View()), ts) ==>
                      error == None && Added(old(mem.View()), mem.View(), meta.id, ts, value))
    {
      hide SeriesOfIn, IndexInvariant, AppendSys, AppendCore, IsOrder, MemInvariant, Added, Manager.Valid, Manager.View,
        Store.Valid, Store.View, WAL.Valid, WAL.View;
      SeriesFits(idx.View(), name, labels);
      order := [];
      var meta := SeriesOf(name, labels);
      if meta.Err? {
        return Some(meta.error), order;
      }
      error, order := AppendTo(Record(0, meta.value.id, ts, value));
    }

    /** `Append` once the series is known: two atomic steps. */
    method AppendTo(rec: Record) returns (error: Option<Error>, ghost order: seq<nat>)
      requires Valid() && MemInvariant(mem.View())
      modifies this`lastFlushSeq, mem, mem.current, shards.Repr(), store.Repr(), wal.Repr()
      ensures Valid() && Grown()
      ensures IsOrder(order, AppendCore(old(View()).core, PointOf(rec)).mem.byID)
      ensures (View(), error) == AppendSys(wal.crc, old(View()), rec, flushThreshold, order)
      ensures Quietly(old(View()), rec.ts) ==>
                error == None && Added(old(mem.View()), mem.View(), rec.series, rec.ts, rec.value)
    {
      hide IsOrder, MemInvariant, FinishSys, AppendLog, AppendCore, Added, MemTable.View, Manager.View, Store.View;
      var seqNo := LogSample(rec);
      error, order := Finish(rec, seqNo);
    }

    /** The first step, outside the lock. */
    method LogSample(rec: Record) returns (seqNo: U64)
      requires Valid()
      modifies wal.Repr()
      ensures Valid() && Grown()
      ensures HasCurrent(old(View()).log) && seqNo == old(View()).log.nextSeq
      ensures View() == old(View()).(log := AppendLog(wal.crc, old(View()).log, rec))
    {
      hide AppendLog, MemTable.View, Manager.Valid, Manager.View, Store.Valid, Store.View, WAL.Valid, WAL.View;
      wal.NextInView();
      seqNo := wal.Append(rec);
    }

    /** The second step, under the lock. */
    method Finish(rec: Record, seqNo: U64) returns (error: Option<Error>, ghost order: seq<nat>)
      requires Valid() && MemInvariant(mem.View())
      modifies this`lastFlushSeq, mem, mem.current, shards.Repr(), store.Repr(), wal.Repr()
      ensures Valid() && Grown()
      ensures IsOrder(order, AppendCore(old(View()).core, PointOf(rec)).mem.byID)
      ensures (View(), error) == FinishSys(wal.crc, old(View()), rec, seqNo, flushThreshold, order)
      ensures Quietly(old(View()), rec.ts) ==>
                error == None && Added(old(mem.View()), mem.View(), rec.series, rec.ts, rec.value)
    {
      hide IsOrder, MemInvariant, FlushLockedSys, AppendCore, Added, Ingest.View, Ingest.Valid, MemTable.View;
      if Quietly(View(), rec.ts) { QuietFinish(rec); }
      error := Write(rec);
      ViewMem();
      assert View().core.mem == AppendCore(old(View()).core, PointOf(rec)).mem;
      if error.Some? || mem.points < flushThreshold {
        order := AnOrder(mem.View().byID.Keys);
        OrderOf(order, mem.View().byID);
        return;
      }
      var ok;
      ok, order := FlushLocked(seqNo);
      error := if ok then None else Some(BeforeActiveShard);
    }

    lemma QuietFinish(rec: Record)
      requires Valid() && MemInvariant(mem.View()) && Quietly(View(), rec.ts)
      ensures Running(View()) && Routable(View().core.shards, rec.ts)
      ensures (var m := AppendCore(View().core, PointOf(rec)).mem;
               m.points < flushThreshold && Added(mem.View(), m, rec.series, rec.ts, rec.value))
    {
      hide MemInvariant, Added, AppendCore;
      Started();
      AppendAdds(View().core, rec);
    }

    lemma ViewMem()
      ensures View().core.mem == mem.View() && mem.View().points == mem.points
    {
    }

    /** The route and the memtable. */
    method Write(rec: Record) returns (error: Option<Error>)
      requires Valid() && MemInvariant(mem.View())
      modifies mem`points, mem.current, shards.Repr()
      ensures Valid() && Grown() && MemInvariant(mem.View())
      ensures Running(old(View()))
      ensures error == if Routable(old(View()).core.shards, rec.ts) then None else Some(BeforeActiveShard)
      ensures View() == old(View()).(core := AppendCore(old(View()).core, PointOf(rec)))
      ensures error.Some? ==> View() == old(View())
    {
      hide MemInvariant, MemWrite, RouteShards, MemTable.View, Manager.Valid, Manager.View, Store.Valid, Store.View,
        WAL.Valid, WAL.View;
      error := Insert(PointOf(rec));
    }

    /** Routes a point and writes it to the memtable. */
    method Insert(p: Point<U64>) returns (error: Option<Error>)
      requires shards.Valid() && MemInvariant(mem.View()) && {mem, mem.current} !! shards.Repr()
      modifies mem`points, mem.current, shards.Repr()
      ensures shards.Valid() && {mem, mem.current} !! shards.Repr() && MemInvariant(mem.View())
      ensures forall o :: o in shards.Repr() ==> o in old(shards.Repr()) || fresh(o)
      ensures error == if Routable(old(shards.View()), p.ts) then None else Some(BeforeActiveShard)
      ensures shards.View() == if error.None? then RouteShards(old(shards.View()), p.ts) else old(shards.View())
      ensures mem.View() == if error.None? then MemWrite(old(mem.View()), p) else old(mem.View())
    {
      hide MemWrite, RouteShards, Times, WellFormedTable, Manager.Valid, Manager.View;
      WriteKeepsInvariant(mem.View(), p);
      var routed := shards.Route(p.ts);
      if routed.Err? {
        return Some(routed.error);
      }
      mem.Write(p);
      error := None;
    }

    /** `Recover`: replays from the watermark into the memtable, then flushes. */
    method Recover() returns (ok: bool, ghost order: seq<nat>)
      requires Valid() && MemInvariant(mem.View())
      modifies this`lastFlushSeq, mem, mem.current, shards.Repr(), store.Repr(), wal.Repr()
      ensures Valid() && Grown()
      ensures IsOrder(order, ReplaySys(wal.crc, old(View())).core.mem.byID)
      ensures (View(), ok) == RecoverSys(wal.crc, old(View()), order)
    {
      hide IsOrder, MemInvariant, FlushSys, ReplayLog, MemWriteAll, MemTable.View, Manager.Valid, Manager.View,
        Store.Valid, Store.View, WAL.Valid, WAL.View;
      wal.NextInView();
      var recs := wal.Replay(wal.nextReplay);
      WriteRecords(recs);
      ok, order := Flush();
    }

    /** The callback of `Recover`, on each record in turn. */
    method WriteRecords(recs: seq<Record>)
      requires MemInvariant(mem.View()) && mem as object != mem.current
      modifies mem`points, mem.current
      ensures MemInvariant(mem.View())
      ensures mem.View() == MemWriteAll(old(mem.View()), PointsFrom(recs))
      ensures forall series: nat ::
                && Ascending(PointsOf(old(mem.View()).byID, series))
                && Buffers(mem.View(), series,
                           AsMap(PointsOf(old(mem.View()).byID, series)) + LastLogged(recs, series))
    {
      hide MemInvariant, MemWrite, Buffers, AsMap;
      for i := 0 to |recs|
        invariant MemInvariant(mem.View())
        invariant mem.View() == MemWriteAll(old(mem.View()), PointsFrom(recs)[..i])
      {
        InvariantTable(mem.View());
        WriteKeepsInvariant(mem.View(), PointOf(recs[i]));
        WriteOneMore(old(mem.View()), PointsFrom(recs), i);
        mem.Write(PointOf(recs[i]));
      }
      assert PointsFrom(recs)[..|recs|] == PointsFrom(recs);
      forall series: nat
        ensures Ascending(PointsOf(old(mem.View()).byID, series))
        ensures Buffers(mem.View(), series, AsMap(PointsOf(old(mem.View()).byID, series)) + LastLogged(recs, series))
      {
        ReplayBuffers(old(mem.View()), recs, series);
      }
    }
  }

  lemma InvariantTable(m: Mem<U64>)
    requires MemInvariant(m)
    ensures WellFormedTable(m.byID)
  {
  }

  lemma WriteOneMore(m: Mem<U64>, ps: seq<Point<U64>>, i: nat)
    requires i < |ps|
    ensures MemWriteAll(m, ps[..i + 1]) == MemWrite(MemWriteAll(m, ps[..i]), ps[i])
  {
    hide MemWrite;
    assert ps[..i + 1][..i] == ps[..i];
  }

  /** Ids stay below 2^64 as long as the next one is. */
  lemma SeriesFits(ix: IndexV, name: string, labels: LabelSet)
    requires IndexInvariant(ix)
    ensures SeriesOfIn(ix, name, labels).1.Ok? ==> SeriesOfIn(ix, name, labels).1.value.id <= ix.nextID
  {
    hide KeyOf, HasId;
  }
}
