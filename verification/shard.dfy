/** Time shards and their rotation. */
module Sharding {
  import opened Model
  import opened Seqs

  datatype ShardV = ShardV(id: nat, start: int, end: int, state: ShardState, blocks: seq<nat>)

  /** The manager's shards, oldest first. */
  datatype Shards = Shards(window: int, shards: seq<ShardV>, nextID: nat) {
    function Newest(): ShardV
      requires shards != []
    {
      shards[|shards| - 1]
    }
  }

  // ----- the operations on values -----

  function SealShard(s: ShardV): ShardV {
    s.(state := if s.state == ShardActive || s.state == ShardSealing then ShardSealed else s.state)
  }

  function ArchiveShard(s: ShardV): ShardV {
    s.(state := if s.state == ShardSealed then ShardArchived else s.state)
  }

  function AddBlockTo(s: ShardV, id: nat): ShardV {
    s.(blocks := s.blocks + [id])
  }

  /** `NewManager`, at clock time `now`. */
  function NewShards(window: int, now: int): Result<Shards> {
    if window <= 0 then Err(BadWindow)
    else
      var start := Align(now, window);
      Ok(Shards(window, [ShardV(1, start, start + window, ShardActive, [])], 2))
  }

  function SealEnded(shards: seq<ShardV>, start: int): seq<ShardV> {
    seq(|shards|, i requires 0 <= i < |shards| => if shards[i].end <= start then SealShard(shards[i]) else shards[i])
  }

  predicate Routable(m: Shards, ts: int)
    requires m.shards != []
  {
    ts >= m.Newest().start
  }

  /** The state after `Route(ts)`; the shard it returns is then the newest. */
  function RouteShards(m: Shards, ts: int): (r: Shards)
    requires m.shards != [] && m.window > 0
    ensures r.shards != [] && r.window == m.window
  {
    if ts < m.Newest().end then m
    else
      var start := Align(ts, m.window);
      m.(shards := SealEnded(m.shards, start) + [ShardV(m.nextID, start, start + m.window, ShardActive, [])],
      nextID := m.nextID + 1)
  }

  function RotateShards(m: Shards): (r: Shards)
    requires m.shards != []
    ensures r.shards != []
  {
    var n := |m.shards| - 1;
    var start := m.shards[n].end;
    m.(shards := m.shards[n := SealShard(m.shards[n])] + [ShardV(m.nextID, start, start + m.window, ShardActive, [])],
    nextID := m.nextID + 1)
  }

  function AddBlockToNewest(m: Shards, id: nat): (r: Shards)
    requires m.shards != []
    ensures r.shards != [] && |r.shards| == |m.shards|
  {
    var n := |m.shards| - 1;
    m.(shards := m.shards[n := AddBlockTo(m.shards[n], id)])
  }

  function ArchiveEnded(m: Shards, ts: int): (r: Shards)
    ensures |r.shards| == |m.shards|
  {
    m.(shards := seq(|m.shards|, i requires 0 <= i < |m.shards| =>
      if m.shards[i].end <= ts then ArchiveShard(m.shards[i]) else m.shards[i]))
  }

  /** The first n shards that `ArchiveEnded` archives. */
  function Expiring(shards: seq<ShardV>, n: nat, ts: int): set<nat> {
    set i | 0 <= i < n && i < |shards| && shards[i].end <= ts && shards[i].state == ShardSealed
  }

  lemma ExpiringMore(shards: seq<ShardV>, n: nat, ts: int)
    requires n < |shards|
    ensures |Expiring(shards, n + 1, ts)|
         == |Expiring(shards, n, ts)| + (if shards[n].end <= ts && shards[n].state == ShardSealed then 1 else 0)
  {
    var one := if shards[n].end <= ts && shards[n].state == ShardSealed then {n} else {};
    assert Expiring(shards, n + 1, ts) == Expiring(shards, n, ts) + one;
  }

  predicate Covers(s: ShardV, rng: QueryRange) {
    s.start < rng.end && s.end > rng.start
  }

  function CoveringFilter(rng: QueryRange): ShardV -> bool {
    (s: ShardV) => Covers(s, rng)
  }

  // ----- every reachable manager -----

  /** Windows are aligned, of one width, disjoint and ascending, ids run from 1, and exactly the
      newest shard is active. */
  ghost predicate ShardInvariant(m: Shards) {
    && m.window > 0 && m.shards != [] && m.nextID == |m.shards| + 1
    && (forall i :: 0 <= i < |m.shards| ==>
                      && m.shards[i].id == i + 1
                      && m.shards[i].start >= 0
                      && m.shards[i].start % m.window == 0
                      && m.shards[i].end == m.shards[i].start + m.window)
    && (forall i, j :: 0 <= i < j < |m.shards| ==> m.shards[i].end <= m.shards[j].start)
    && m.Newest().state == ShardActive
    && (forall i :: 0 <= i < |m.shards| - 1 ==> m.shards[i].state == ShardSealed || m.shards[i].state == ShardArchived)
  }

  /** A new manager's window contains the clock time unless that is negative and unaligned:
      the truncating remainder rounds it up then. */
  lemma NewShardsCoversNow(window: int, now: int)
    requires window > 0
    ensures (var s := NewShards(window, now).value.Newest(); s.start <= now < s.end)
       <==> now >= 0 || now % window == 0
  {
    if now >= 0 {
      AlignNonNegative(now, window);
    } else {
      AlignNonNegative(-now, window);
      AlignNegated(-now, window);
      NegatedMultipleOf(-now, window);
    }
  }

  /** Shards start at or after time zero exactly when the clock does not read a whole window before it. */
  lemma NewShardsInvariant(window: int, now: int)
    requires window > 0
    ensures ShardInvariant(NewShards(window, now).value) <==> now > -window
  {
    if now >= 0 {
      AlignNonNegative(now, window);
    } else {
      AlignNonNegative(-now, window);
      AlignNegated(-now, window);
      if now > -window {
        WindowOf(-now, window, 0);
      } else {
        AlignAtLeast(-now, window, window);
      }
    }
  }

  /** `Route` succeeds exactly at or after the newest shard's start, and the shard it returns
      contains the timestamp. */
  lemma RouteContains(m: Shards, ts: int)
    requires ShardInvariant(m)
    ensures Routable(m, ts) <==> (var s := RouteShards(m, ts).Newest(); s.start <= ts < s.end)
    ensures Routable(m, ts) ==> ShardInvariant(RouteShards(m, ts))
  {
    if ts >= m.Newest().end {
      AlignNonNegative(ts, m.window);
      RouteRotates(m, ts);
    }
  }

  /** The window a rotating route opens contains the timestamp unless that is negative and off the
      grid, whatever the manager's history. */
  lemma RouteCoversIff(m: Shards, ts: int)
    requires m.shards != [] && m.window > 0 && m.Newest().end <= ts
    ensures (var s := RouteShards(m, ts).Newest(); s.start <= ts < s.end) <==> ts >= 0 || ts % m.window == 0
  {
    hide Align, SealEnded;
    NewShardsCoversNow(m.window, ts);
  }

  /** A rotating route: everything older is sealed, since it ends by the new start. */
  lemma RouteShape(m: Shards, ts: int)
    requires ShardInvariant(m) && ts >= m.Newest().end
    ensures (var r, start := RouteShards(m, ts), Align(ts, m.window);
             && m.Newest().end <= start <= ts < start + m.window && start % m.window == 0
             && |r.shards| == |m.shards| + 1 && r.window == m.window && r.nextID == m.nextID + 1
             && r.Newest() == ShardV(m.nextID, start, start + m.window, ShardActive, [])
             && forall i :: 0 <= i < |m.shards| ==> r.shards[i] == SealShard(m.shards[i]))
  {
    hide SealShard, Align;
    NextStart(m);
    AlignNonNegative(ts, m.window);
    AlignAtLeast(ts, m.window, m.Newest().end);
    EndsAscend(m);
  }

  lemma EndsAscend(m: Shards)
    requires ShardInvariant(m)
    ensures forall i :: 0 <= i < |m.shards| ==> m.shards[i].end <= m.Newest().end
  {
  }

  lemma RouteRotates(m: Shards, ts: int)
    requires ShardInvariant(m) && ts >= m.Newest().end
    ensures ShardInvariant(RouteShards(m, ts))
    ensures forall i :: 0 <= i < |m.shards| ==> RouteShards(m, ts).shards[i] == SealShard(m.shards[i])
    ensures |RouteShards(m, ts).shards| == |m.shards| + 1
  {
    hide RouteShards, Align;
    RouteShape(m, ts);
    EndsAscend(m);
  }

  lemma NextStart(m: Shards)
    requires ShardInvariant(m)
    ensures m.Newest().end % m.window == 0 && m.Newest().end > 0
  {
    var s := m.Newest();
    DivideBounds(s.start, m.window);
    var q := s.start / m.window;
    assert (q + 1) * m.window == s.end;
    MultipleOf(q + 1, m.window);
  }

  lemma RotateKeeps(m: Shards)
    requires ShardInvariant(m)
    ensures ShardInvariant(RotateShards(m))
  {
    NextStart(m);
  }

  /** After a forced rotation every timestamp of the window just closed is refused, whatever the
      comment on `ForceRotate` promises in-flight timestamps. */
  lemma RotateRefusesInFlight(m: Shards, ts: int)
    requires ShardInvariant(m) && m.Newest().start <= ts < m.Newest().end
    ensures Routable(m, ts) && !Routable(RotateShards(m), ts)
    ensures exists s :: s in RotateShards(m).shards && s.start <= ts < s.end
  {
    var n := |m.shards| - 1;
    assert RotateShards(m).shards[n] == SealShard(m.shards[n]);
  }

  /** A forced rotation skips nothing: from the end of the window it closes on every timestamp is
      taken, and the shard that takes it covers it. */
  lemma RotateAdjoins(m: Shards, ts: int)
    requires ShardInvariant(m)
    ensures Routable(RotateShards(m), ts) <==> ts >= m.Newest().end
    ensures ts >= m.Newest().end ==>
              (var s := RouteShards(RotateShards(m), ts).Newest(); s.start <= ts < s.end && s.state == ShardActive)
    ensures forall s :: s in m.shards ==> exists t :: t in RotateShards(m).shards && t.(state := s.state) == s
  {
    hide RouteShards;
    RotateKeeps(m);
    RouteContains(RotateShards(m), ts);
    var r := RotateShards(m).shards;
    forall s | s in m.shards ensures exists t :: t in r && t.(state := s.state) == s {
      var i :| 0 <= i < |m.shards| && m.shards[i] == s;
      assert r[i] in r && r[i].(state := s.state) == s;
    }
  }

  /** Archiving skips the newest shard, which is active, even past its end. */
  lemma ArchiveAnyKeeps(m: Shards, ts: int)
    requires ShardInvariant(m)
    ensures ShardInvariant(ArchiveEnded(m, ts))
    ensures forall i :: 0 <= i < |m.shards| ==>
                          (ArchiveEnded(m, ts).shards[i].state == ShardArchived
                           <==> m.shards[i].state == ShardArchived || (i < |m.shards| - 1 && m.shards[i].end <= ts))
  {
    hide ArchiveEnded;
    ArchiveShape(m, ts);
  }

  lemma ArchiveShape(m: Shards, ts: int)
    ensures (var r := ArchiveEnded(m, ts);
             && |r.shards| == |m.shards| && r.window == m.window && r.nextID == m.nextID
             && forall i :: 0 <= i < |m.shards| ==>
                              r.shards[i]
                              == m.shards[i].(state := if m.shards[i].end <= ts && m.shards[i].state == ShardSealed
                              then ShardArchived else m.shards[i].state))
  {
  }

  /** A block is listed last, in the newest shard, and nowhere else. */
  lemma AddBlockKeeps(m: Shards, id: nat)
    requires ShardInvariant(m)
    ensures ShardInvariant(AddBlockToNewest(m, id))
    ensures (var n, r := |m.shards| - 1, AddBlockToNewest(m, id).shards;
             r[..n] == m.shards[..n] && r[n].(blocks := []) == m.shards[n].(blocks := [])
             && r[n].blocks == m.shards[n].blocks + [id])
  {
  }

  /** Opening a window, by a route or by force, seals the one that was newest, and touches no older one. */
  lemma NextWindowSeals(m: Shards, next: Shards, ts: int)
    requires ShardInvariant(m)
    requires next == RotateShards(m) || (ts >= m.Newest().end && next == RouteShards(m, ts))
    ensures (var n := |m.shards| - 1;
             && |next.shards| == |m.shards| + 1 && next.shards[..n] == m.shards[..n]
             && next.shards[n] == m.Newest().(state := ShardSealed)
             && next.Newest().state == ShardActive && next.Newest().blocks == [])
  {
    hide Align;
    if next == RouteShards(m, ts) {
      RouteShape(m, ts);
    }
  }

  /** The shards a query looks into are those whose window shares some moment with the range. */
  lemma CoversIff(s: ShardV, rng: QueryRange)
    requires s.start < s.end && rng.start < rng.end
    ensures Covers(s, rng) <==> exists ts :: s.start <= ts < s.end && rng.Holds(ts)
  {
    if Covers(s, rng) {
      var ts := if s.start >= rng.start then s.start else rng.start;
      assert s.start <= ts < s.end && rng.Holds(ts);
    }
  }

  datatype ShardOp = RouteOp(ts: int) | RotateOp | ArchiveOp(before: int) | AddBlockOp(id: nat)

  function StepShards(m: Shards, op: ShardOp): (r: Shards)
    requires m.shards != [] && m.window > 0
    ensures r.shards != [] && r.window > 0
  {
    match op
    case RouteOp(ts) => if Routable(m, ts) then RouteShards(m, ts) else m
    case RotateOp => RotateShards(m)
    case ArchiveOp(before) => ArchiveEnded(m, before)
    case AddBlockOp(id) => AddBlockToNewest(m, id)
  }

  function RunShards(m: Shards, ops: seq<ShardOp>): (r: Shards)
    requires m.shards != [] && m.window > 0
    ensures r.shards != [] && r.window > 0
    decreases |ops|
  {
    if ops == [] then m else RunShards(StepShards(m, ops[0]), ops[1..])
  }

  /** Every manager reachable from a good one keeps the invariant, and its newest
      window never moves back. */
  lemma {:induction false} ReachableShards(m: Shards, ops: seq<ShardOp>)
    requires ShardInvariant(m)
    ensures ShardInvariant(RunShards(m, ops))
    ensures m.Newest().start <= RunShards(m, ops).Newest().start
    decreases |ops|
  {
    if ops != [] {
      var next := StepShards(m, ops[0]);
      StepShardsKeeps(m, ops[0]);
      ReachableShards(next, ops[1..]);
    }
  }

  lemma StepShardsKeeps(m: Shards, op: ShardOp)
    requires ShardInvariant(m)
    ensures ShardInvariant(StepShards(m, op))
    ensures m.Newest().start <= StepShards(m, op).Newest().start
  {
    match op {
      case RouteOp(ts) => RouteMovesOn(m, ts);
      case RotateOp => RotateKeeps(m);
      case ArchiveOp(before) => ArchiveAnyKeeps(m, before);
      case AddBlockOp(id) => AddBlockKeeps(m, id);
    }
  }

  lemma RouteMovesOn(m: Shards, ts: int)
    requires ShardInvariant(m)
    ensures Routable(m, ts) ==> ShardInvariant(RouteShards(m, ts))
    ensures Routable(m, ts) ==> m.Newest().start <= RouteShards(m, ts).Newest().start
  {
    RouteContains(m, ts);
    if ts >= m.Newest().end {
      NextStart(m);
      AlignAtLeast(ts, m.window, m.Newest().end);
    }
  }

  // ----- the manager in place -----

  class Shard {
    const id: nat
    const start: int
    const end: int
    var state: ShardState
    var blocks: seq<nat>

    constructor (id: nat, start: int, end: int)
      ensures View() == ShardV(id, start, end, ShardActive, [])
    {
      this.id, this.start, this.end := id, start, end;
      state, blocks := ShardActive, [];
    }

    function View(): ShardV
      reads this
    {
      ShardV(id, start, end, state, blocks)
    }

    method Seal()
      modifies this`state
      ensures View() == SealShard(old(View()))
    {
      if state == ShardActive {
        state := ShardSealing;
      }
      if state == ShardSealing {
        state := ShardSealed;
      }
    }

    method Archive()
      modifies this`state
      ensures View() == ArchiveShard(old(View()))
    {
      if state == ShardSealed {
        state := ShardArchived;
      }
    }

    method AddBlock(block: nat)
      modifies this`blocks
      ensures View() == AddBlockTo(old(View()), block)
    {
      blocks := blocks + [block];
    }
  }

  ghost function ViewsOf(shards: seq<Shard>): (views: seq<ShardV>)
    reads shards
    ensures |views| == |shards|
    ensures forall i :: 0 <= i < |shards| ==> views[i] == shards[i].View()
  {
    seq(|shards|, i requires 0 <= i < |shards| reads shards => shards[i].View())
  }

  class Manager {
    const window: int
    var shards: seq<Shard>
    var nextID: nat

    ghost function Repr(): (r: set<object>)
      reads this`shards
      ensures this in r
    {
      {this} + set s: object | s in shards
    }

    ghost predicate Valid()
      reads this`shards
    {
      && window > 0 && shards != []
      && forall i, j :: 0 <= i < j < |shards| ==> shards[i] != shards[j]
    }

    ghost function Shown(): (views: seq<ShardV>)
      reads this`shards, shards
      ensures |views| == |shards|
    {
      ViewsOf(shards)
    }

    ghost function View(): (m: Shards)
      reads this, Repr()
      ensures Valid() ==> m.shards != [] && m.window > 0
      ensures |m.shards| == |shards| && m.window == window
    {
      Shards(window, Shown(), nextID)
    }

    constructor (window: int, now: int)
      requires window > 0
      ensures Valid() && fresh(Repr())
      ensures NewShards(window, now) == Ok(View())
    {
      var start := Align(now, window);
      var sh := new Shard(1, start, start + window);
      this.window := window;
      shards := [sh];
      nextID := 2;
      new;
      assert Shown() == [sh.View()];
    }

    /** `NewManager`, at clock time `now`. */
    static method New(window: int, now: int) returns (r: Result<Manager>)
      ensures match NewShards(window, now)
              case Err(e) => r == Err(e)
              case Ok(m) => r.Ok? && fresh(r.value.Repr()) && r.value.Valid() && r.value.View() == m
      ensures r.Err? <==> window <= 0
    {
      if window <= 0 {
        return Err(BadWindow);
      }
      var m := new Manager(window, now);
      r := Ok(m);
    }

    /** `Route`: the newest shard, after rotating when ts lies past its window. */
    method Route(ts: int) returns (r: Result<Shard>)
      requires Valid()
      modifies Repr()
      ensures Valid() && (forall o :: o in Repr() ==> o in old(Repr()) || fresh(o))
      ensures r.Ok? <==> Routable(old(View()), ts)
      ensures r.Err? ==> r.error == BeforeActiveShard
      ensures View() == if r.Ok? then RouteShards(old(View()), ts) else old(View())
      ensures r.Ok? ==> r.value == shards[|shards| - 1]
    {
      hide SealEnded, Align, ShardInvariant;
      var last := shards[|shards| - 1];
      assert last.View() == View().Newest();
      if ts >= last.start && ts < last.end {
        return Ok(last);
      }
      if ts < last.start {
        return Err(BeforeActiveShard);
      }
      var sh := OpenWindow(Align(ts, window));
      r := Ok(sh);
    }

    lemma NewestInView()
      requires Valid()
      ensures shards[|shards| - 1].View() == View().Newest()
    {
    }

    /** The end of `Route`: a new active shard at `start`, everything that ends by then sealed. */
    method OpenWindow(start: int) returns (sh: Shard)
      requires Valid()
      modifies Repr()
      ensures Valid() && (forall o :: o in Repr() ==> o in old(Repr()) || fresh(o)) && sh == shards[|shards| - 1]
      ensures nextID == old(nextID) + 1
      ensures Shown() == SealEnded(old(Shown()), start) + [ShardV(old(nextID), start, start + window, ShardActive, [])]
    {
      hide SealEnded;
      SealBefore(start);
      sh := Push(start);
    }

    /** Appends a new active shard starting at `start`. */
    method Push(start: int) returns (sh: Shard)
      requires Valid()
      modifies this
      ensures Valid() && fresh(sh) && shards == old(shards) + [sh] && nextID == old(nextID) + 1
      ensures Shown() == old(Shown()) + [ShardV(old(nextID), start, start + window, ShardActive, [])]
    {
      sh := new Shard(nextID, start, start + window);
      nextID := nextID + 1;
      shards := shards + [sh];
      assert Shown() == old(Shown()) + [sh.View()];
    }

    /** The loop sealing every shard that ends by `start`. */
    method SealBefore(start: int)
      requires Valid()
      modifies shards
      ensures Shown() == SealEnded(old(Shown()), start)
    {
      for i := 0 to |shards|
        invariant forall j :: 0 <= j < |shards| ==>
                                shards[j].View() == if j < i && shards[j].end <= start then SealShard(old(Shown())[j])
                                else old(Shown())[j]
      {
        if shards[i].end <= start {
          shards[i].Seal();
        }
      }
    }

    /** `ForceRotate`. */
    method ForceRotate() returns (sh: Shard)
      requires Valid()
      modifies Repr()
      ensures Valid() && (forall o :: o in Repr() ==> o in old(Repr()) || fresh(o))
      ensures View() == RotateShards(old(View()))
      ensures sh == shards[|shards| - 1]
    {
      hide ShardInvariant, SealShard;
      var last := shards[|shards| - 1];
      last.Seal();
      ghost var sealed := Shown();
      assert sealed == old(Shown())[|shards| - 1 := SealShard(old(Shown())[|shards| - 1])];
      sh := Push(last.end);
    }

    /** `AddBlock` on the shard `Route` returned. */
    method AddToNewest(sh: Shard, block: nat)
      requires Valid() && sh == shards[|shards| - 1]
      modifies Repr()
      ensures Valid() && Repr() == old(Repr()) && View() == AddBlockToNewest(old(View()), block)
    {
      sh.AddBlock(block);
    }

    /** `ArchiveOlderThan`. */
    method ArchiveOlderThan(ts: int) returns (n: nat)
      requires Valid()
      modifies Repr()
      ensures Valid() && Repr() == old(Repr()) && View() == ArchiveEnded(old(View()), ts)
      ensures n == |Expiring(old(View()).shards, |old(View()).shards|, ts)|
    {
      hide Expiring;
      n := 0;
      NoneExpiring(Shown(), ts);
      for i := 0 to |shards|
        modifies shards
        invariant n == |Expiring(old(Shown()), i, ts)|
        invariant forall j :: 0 <= j < |shards| ==>
                                shards[j].View() == if j < i && shards[j].end <= ts then ArchiveShard(old(Shown())[j])
                                else old(Shown())[j]
      {
        assert shards[i].View() == old(Shown())[i];
        ExpiringMore(old(Shown()), i, ts);
        if shards[i].end <= ts && shards[i].state == ShardSealed {
          shards[i].Archive();
          n := n + 1;
        }
      }
    }

    lemma NoneExpiring(shards: seq<ShardV>, ts: int)
      ensures Expiring(shards, 0, ts) == {}
    {
    }

    /** `ShardsCovering`: the shards whose window overlaps the range, oldest first. */
    method ShardsCovering(rng: QueryRange) returns (out: seq<Shard>)
      ensures forall s :: s in out ==> s in shards
      ensures ViewsOf(out) == Filter(CoveringFilter(rng), Shown())
    {
      out := [];
      for i := 0 to |shards|
        invariant forall s :: s in out ==> s in shards
        invariant ViewsOf(out) == Filter(CoveringFilter(rng), Shown()[..i])
      {
        assert Shown()[..i + 1] == Shown()[..i] + [shards[i].View()];
        FilterConcat(CoveringFilter(rng), Shown()[..i], [shards[i].View()]);
        FilterOne(CoveringFilter(rng), shards[i].View());
        if shards[i].start < rng.end && shards[i].end > rng.start {
          assert ViewsOf(out + [shards[i]]) == ViewsOf(out) + [shards[i].View()];
          out := out + [shards[i]];
        }
      }
      assert Shown()[..|shards|] == Shown();
    }
  }
}
