/** The block store: reference-counted blocks, archived before they are reclaimed. */
module Storage {
  import opened Model
  import opened TimeSearch

  datatype BlockV<V> = BlockV(
    id: nat, state: BlockState, refs: nat, byID: Table<V>, minTS: int, maxTS: int, archived: bool)

  datatype StoreV<V> = StoreV(blocks: map<nat, BlockV<V>>, nextID: nat, removed: nat)

  // ----- the operations on values -----

  function AcquireBlock<V>(b: BlockV<V>): BlockV<V> {
    b.(refs := b.refs + 1)
  }

  function ReleaseBlock<V>(b: BlockV<V>): BlockV<V> {
    b.(refs := if b.refs > 0 then b.refs - 1 else 0)
  }

  function CompactingBlock<V>(b: BlockV<V>): BlockV<V> {
    b.(state := if b.state == BlockImmutable then BlockCompacting else b.state)
  }

  function ArchiveBlock<V>(b: BlockV<V>): BlockV<V> {
    b.(archived := true)
  }

  predicate Reclaimable<V>(b: BlockV<V>) {
    b.archived && b.refs == 0
  }

  /** `Open` succeeds on exactly these ids. */
  predicate Openable<V>(s: StoreV<V>, id: nat) {
    id in s.blocks && !s.blocks[id].archived
  }

  function CreateIn<V>(s: StoreV<V>, byID: Table<V>, minTS: int, maxTS: int): StoreV<V> {
    var id := s.nextID + 1;
    s.(blocks := s.blocks[id := BlockV(id, BlockImmutable, 0, byID, minTS, maxTS, false)], nextID := id)
  }

  function OpenIn<V>(s: StoreV<V>, id: nat): StoreV<V> {
    if Openable(s, id) then s.(blocks := s.blocks[id := AcquireBlock(s.blocks[id])]) else s
  }

  function CloseIn<V>(s: StoreV<V>, id: nat): StoreV<V> {
    if id in s.blocks then s.(blocks := s.blocks[id := ReleaseBlock(s.blocks[id])]) else s
  }

  function ArchiveIn<V>(s: StoreV<V>, id: nat): StoreV<V> {
    if id in s.blocks then s.(blocks := s.blocks[id := ArchiveBlock(s.blocks[id])]) else s
  }

  function CompactingIn<V>(s: StoreV<V>, id: nat): StoreV<V> {
    if id in s.blocks then s.(blocks := s.blocks[id := CompactingBlock(s.blocks[id])]) else s
  }

  lemma OpenThenClose<V>(s: StoreV<V>, id: nat)
    requires Openable(s, id)
    ensures CloseIn(OpenIn(s, id), id) == s
  {
    assert CloseIn(OpenIn(s, id), id).blocks == s.blocks;
  }

  function Unclaimed<V>(s: StoreV<V>): set<nat> {
    set id | id in s.blocks && Reclaimable(s.blocks[id])
  }

  function ReclaimIn<V>(s: StoreV<V>): StoreV<V> {
    s.(blocks := s.blocks - Unclaimed(s), removed := s.removed + |Unclaimed(s)|)
  }

  /** A sweep that has still to look at `rest`: the blocks left, and the ids taken. */
  function Unswept<V>(m: map<nat, BlockV<V>>, rest: set<nat>): map<nat, BlockV<V>> {
    map id | id in m && (id in rest || !Reclaimable(m[id])) :: m[id]
  }

  function Swept<V>(m: map<nat, BlockV<V>>, rest: set<nat>): set<nat> {
    set id | id in m && id !in rest && Reclaimable(m[id])
  }

  lemma SweepStart<V>(m: map<nat, BlockV<V>>)
    ensures Unswept(m, m.Keys) == m && Swept(m, m.Keys) == {}
  {
  }

  lemma SweepStep<V>(m: map<nat, BlockV<V>>, rest: set<nat>, id: nat)
    requires id in rest && rest <= m.Keys
    ensures id in Unswept(m, rest) && Unswept(m, rest)[id] == m[id]
    ensures Unswept(m, rest - {id}) == if Reclaimable(m[id]) then Unswept(m, rest) - {id} else Unswept(m, rest)
    ensures |Swept(m, rest - {id})| == |Swept(m, rest)| + (if Reclaimable(m[id]) then 1 else 0)
  {
    assert Swept(m, rest - {id}) == Swept(m, rest) + (if Reclaimable(m[id]) then {id} else {});
  }

  lemma SweepEnd<V>(s: StoreV<V>)
    ensures Unswept(s.blocks, {}) == s.blocks - Unclaimed(s)
    ensures Swept(s.blocks, {}) == Unclaimed(s)
  {
  }

  /** Reclaim takes every archived block without readers, and no other; it counts what it takes. */
  lemma ReclaimTakes<V>(s: StoreV<V>, id: nat)
    ensures id in ReclaimIn(s).blocks <==> id in s.blocks && !(s.blocks[id].archived && s.blocks[id].refs == 0)
    ensures id in ReclaimIn(s).blocks ==> ReclaimIn(s).blocks[id] == s.blocks[id]
    ensures ReclaimIn(s).nextID == s.nextID
    ensures ReclaimIn(s).removed
         == s.removed + |set x | x in s.blocks && s.blocks[x].archived && s.blocks[x].refs == 0|
  {
    assert Unclaimed(s) == set x | x in s.blocks && s.blocks[x].archived && s.blocks[x].refs == 0;
  }

  // ----- any interleaving of clients -----

  /** The store and the open handles; each handle is a token naming the block it holds. */
  datatype Clients<V> = Clients(store: StoreV<V>, handles: map<nat, nat>)

  /** One atomic step by any client: each is one locked method of the source. */
  datatype ClientStep<V> =
    | CreateStep(byID: Table<V>, minTS: int, maxTS: int)
    | OpenStep(token: nat, id: nat)
    | CloseStep(token: nat)
    | MarkArchivedStep(id: nat)
    | MarkCompactingStep(id: nat)
    | ReclaimStep

  /** A handle is opened under an unused token, and closed once. */
  predicate Allowed<V>(c: Clients<V>, step: ClientStep<V>) {
    match step
    case OpenStep(token, _) => token !in c.handles
    case CloseStep(token) => token in c.handles
    case _ => true
  }

  function Act<V>(c: Clients<V>, step: ClientStep<V>): Clients<V>
    requires Allowed(c, step)
  {
    match step
    case CreateStep(byID, minTS, maxTS) => c.(store := CreateIn(c.store, byID, minTS, maxTS))
    case OpenStep(token, id) =>
      if Openable(c.store, id) then Clients(OpenIn(c.store, id), c.handles[token := id]) else c
    case CloseStep(token) => Clients(CloseIn(c.store, c.handles[token]), c.handles - {token})
    case MarkArchivedStep(id) => c.(store := ArchiveIn(c.store, id))
    case MarkCompactingStep(id) => c.(store := CompactingIn(c.store, id))
    case ReclaimStep => c.(store := ReclaimIn(c.store))
  }

  /** The open handles on one block. */
  function HandlesOn(handles: map<nat, nat>, id: nat): set<nat> {
    set token | token in handles && handles[token] == id
  }

  ghost predicate StoreInvariant<V>(s: StoreV<V>) {
    && (forall id :: id in s.blocks ==> 1 <= id <= s.nextID && s.blocks[id].id == id)
    && s.nextID == |s.blocks| + s.removed
  }

  /** refs counts the open handles, and every held block is in the store. */
  ghost predicate ClientInvariant<V>(c: Clients<V>) {
    && StoreInvariant(c.store)
    && (forall token :: token in c.handles ==> c.handles[token] in c.store.blocks)
    && (forall id :: id in c.store.blocks ==> c.store.blocks[id].refs == |HandlesOn(c.handles, id)|)
  }

  lemma CreateKeepsStore<V>(s: StoreV<V>, byID: Table<V>, minTS: int, maxTS: int)
    requires StoreInvariant(s)
    ensures StoreInvariant(CreateIn(s, byID, minTS, maxTS))
  {
    assert s.nextID + 1 !in s.blocks;
  }

  lemma ReclaimKeepsStore<V>(s: StoreV<V>)
    requires StoreInvariant(s)
    ensures StoreInvariant(ReclaimIn(s))
  {
    var gone := Unclaimed(s);
    assert gone <= s.blocks.Keys;
    assert ReclaimIn(s).blocks.Keys == s.blocks.Keys - gone;
    assert |s.blocks.Keys| == |s.blocks.Keys - gone| + |gone|;
  }

  /** Changing one block's fields but not its id keeps the store's bookkeeping. */
  lemma UpdateKeepsStore<V>(s: StoreV<V>, id: nat, b: BlockV<V>)
    requires StoreInvariant(s) && id in s.blocks && b.id == id
    ensures StoreInvariant(s.(blocks := s.blocks[id := b]))
  {
    assert s.blocks[id := b].Keys == s.blocks.Keys;
    assert |s.blocks[id := b]| == |s.blocks[id := b].Keys|;
  }

  lemma HandlesAfterOpen(handles: map<nat, nat>, token: nat, id: nat, other: nat)
    requires token !in handles
    ensures |HandlesOn(handles[token := id], other)| == |HandlesOn(handles, other)| + (if other == id then 1 else 0)
  {
    assert HandlesOn(handles[token := id], other) == HandlesOn(handles, other) + (if other == id then {token} else {});
  }

  lemma HandlesAfterClose(handles: map<nat, nat>, token: nat, other: nat)
    requires token in handles
    ensures |HandlesOn(handles - {token}, other)|
         == |HandlesOn(handles, other)| - (if other == handles[token] then 1 else 0)
  {
    assert token in HandlesOn(handles, handles[token]);
    assert HandlesOn(handles - {token}, other) == HandlesOn(handles, other) - {token};
  }

  lemma OpenKeeps<V>(c: Clients<V>, token: nat, id: nat)
    requires ClientInvariant(c) && token !in c.handles && Openable(c.store, id)
    ensures ClientInvariant(Act(c, OpenStep(token, id)))
  {
    hide HandlesOn;
    UpdateKeepsStore(c.store, id, AcquireBlock(c.store.blocks[id]));
    forall other ensures |HandlesOn(c.handles[token := id], other)|
                      == |HandlesOn(c.handles, other)| + (if other == id then 1 else 0)
    {
      HandlesAfterOpen(c.handles, token, id, other);
    }
  }

  lemma CloseKeeps<V>(c: Clients<V>, token: nat)
    requires ClientInvariant(c) && token in c.handles
    ensures ClientInvariant(Act(c, CloseStep(token)))
  {
    hide HandlesOn;
    var id := c.handles[token];
    UpdateKeepsStore(c.store, id, ReleaseBlock(c.store.blocks[id]));
    forall other ensures |HandlesOn(c.handles - {token}, other)|
                      == |HandlesOn(c.handles, other)| - (if other == id then 1 else 0)
    {
      HandlesAfterClose(c.handles, token, other);
    }
  }

  lemma CreateKeeps<V>(c: Clients<V>, byID: Table<V>, minTS: int, maxTS: int)
    requires ClientInvariant(c)
    ensures ClientInvariant(Act(c, CreateStep(byID, minTS, maxTS)))
  {
    CreateKeepsStore(c.store, byID, minTS, maxTS);
    assert HandlesOn(c.handles, c.store.nextID + 1) == {};
  }

  /** Reclaim takes no block that is held. */
  lemma ReclaimKeeps<V>(c: Clients<V>)
    requires ClientInvariant(c)
    ensures ClientInvariant(Act(c, ReclaimStep))
  {
    ReclaimKeepsStore(c.store);
    forall token | token in c.handles ensures c.handles[token] in ReclaimIn(c.store).blocks {
      assert token in HandlesOn(c.handles, c.handles[token]);
    }
  }

  lemma ActKeeps<V>(c: Clients<V>, step: ClientStep<V>)
    requires ClientInvariant(c) && Allowed(c, step)
    ensures ClientInvariant(Act(c, step))
  {
    hide ClientInvariant;
    match step {
      case CreateStep(byID, minTS, maxTS) => CreateKeeps(c, byID, minTS, maxTS);
      case OpenStep(token, id) => if Openable(c.store, id) { OpenKeeps(c, token, id); }
      case CloseStep(token) => CloseKeeps(c, token);
      case MarkArchivedStep(id) => MarkKeeps(c, id, MarkArchivedStep(id));
      case MarkCompactingStep(id) => MarkKeeps(c, id, MarkCompactingStep(id));
      case ReclaimStep => ReclaimKeeps(c);
    }
  }

  lemma MarkKeeps<V>(c: Clients<V>, id: nat, step: ClientStep<V>)
    requires ClientInvariant(c) && (step == MarkArchivedStep(id) || step == MarkCompactingStep(id))
    ensures ClientInvariant(Act(c, step))
  {
    hide HandlesOn;
    if id in c.store.blocks {
      UpdateKeepsStore(c.store, id, Act(c, step).store.blocks[id]);
    }
  }

  /** What one step may do to block `id`: it never returns once gone, archiving is for good, an
      archived block gains no references, and a held block stays. */
  ghost predicate Monotone<V>(a: Clients<V>, b: Clients<V>, id: nat) {
    && a.store.nextID <= b.store.nextID && a.store.removed <= b.store.removed
    && (id <= a.store.nextID && id !in a.store.blocks ==> id !in b.store.blocks)
    && (id in a.store.blocks && a.store.blocks[id].archived ==>
          (id in b.store.blocks ==> b.store.blocks[id].archived && b.store.blocks[id].refs <= a.store.blocks[id].refs))
  }

  lemma ActMonotone<V>(c: Clients<V>, step: ClientStep<V>, id: nat)
    requires ClientInvariant(c) && Allowed(c, step)
    ensures Monotone(c, Act(c, step), id)
    ensures id in c.store.blocks && id !in Act(c, step).store.blocks ==>
              && step == ReclaimStep && HandlesOn(c.handles, id) == {} && c.store.blocks[id].archived
  {
  }

  /** A run is a sequence of states, each one allowed step after the previous. */
  ghost predicate IsRun<V>(states: seq<Clients<V>>, steps: seq<ClientStep<V>>) {
    && |states| == |steps| + 1
    && forall i :: 0 <= i < |steps| ==> Allowed(states[i], steps[i]) && states[i + 1] == Act(states[i], steps[i])
  }

  /** Over every interleaving: refs is the number of open handles, a held block never leaves the
      store, an archived block's references never rise, no removed block returns (so each is
      removed at most once), and every id ever handed out is held or removed. */
  lemma {:induction false} RunsAreSafe<V>(states: seq<Clients<V>>, steps: seq<ClientStep<V>>, i: nat, j: nat, id: nat)
    requires IsRun(states, steps) && ClientInvariant(states[0]) && i <= j < |states|
    ensures ClientInvariant(states[i]) && ClientInvariant(states[j])
    ensures Monotone(states[i], states[j], id)
    decreases j
  {
    hide ClientInvariant, Act, Allowed;
    if j == 0 {
    } else if i == j {
      RunsAreSafe(states, steps, i - 1, j - 1, id);
      ActKeeps(states[j - 1], steps[j - 1]);
    } else {
      RunsAreSafe(states, steps, i, j - 1, id);
      ActKeeps(states[j - 1], steps[j - 1]);
      ActMonotone(states[j - 1], steps[j - 1], id);
      StaysGone(states[i], states[j - 1], states[j], id);
    }
  }

  /** Over every interleaving: a reclaim leaves an archived block in the store only if some handle on it
      is open. */
  lemma RunsReclaim<V>(states: seq<Clients<V>>, steps: seq<ClientStep<V>>, i: nat, id: nat) returns (token: nat)
    requires IsRun(states, steps) && ClientInvariant(states[0]) && i < |steps| && steps[i] == ReclaimStep
    requires id in states[i + 1].store.blocks && states[i + 1].store.blocks[id].archived
    ensures token in states[i + 1].handles && states[i + 1].handles[token] == id
  {
    RunsAreSafe(states, steps, i, i + 1, id);
    ReclaimTakes(states[i].store, id);
    var c := states[i + 1];
    assert c.store.blocks[id].refs == |HandlesOn(c.handles, id)| > 0;
    token :| token in HandlesOn(c.handles, id);
  }

  lemma StaysGone<V>(a: Clients<V>, b: Clients<V>, c: Clients<V>, id: nat)
    requires ClientInvariant(a) && ClientInvariant(b)
    requires Monotone(a, b, id) && Monotone(b, c, id)
    ensures Monotone(a, c, id)
  {
  }

  // ----- the store in place -----

  class Block<V> {
    const id: nat
    var state: BlockState
    var refs: nat
    const byID: Table<V>
    const minTS: int
    const maxTS: int
    var archived: bool

    constructor (id: nat, byID: Table<V>, minTS: int, maxTS: int)
      ensures View() == BlockV(id, BlockMutable, 0, byID, minTS, maxTS, false)
    {
      this.id, this.byID, this.minTS, this.maxTS := id, byID, minTS, maxTS;
      state, refs, archived := BlockMutable, 0, false;
    }

    ghost function View(): BlockV<V>
      reads this
    {
      BlockV(id, state, refs, byID, minTS, maxTS, archived)
    }

    /** `Acquire` fails on an archived block. */
    method Acquire() returns (ok: bool)
      modifies this`refs
      ensures ok == !archived
      ensures View() == if ok then AcquireBlock(old(View())) else old(View())
    {
      if archived {
        return false;
      }
      refs := refs + 1;
      ok := true;
    }

    method Release()
      modifies this`refs
      ensures View() == ReleaseBlock(old(View()))
    {
      if refs > 0 {
        refs := refs - 1;
      }
    }

    method Seal()
      modifies this`state
      ensures View() == old(View()).(state := if old(state) == BlockMutable then BlockImmutable else old(state))
    {
      if state == BlockMutable {
        state := BlockImmutable;
      }
    }

    method MarkCompacting()
      modifies this`state
      ensures View() == CompactingBlock(old(View()))
    {
      if state == BlockImmutable {
        state := BlockCompacting;
      }
    }

    method MarkArchived()
      modifies this`archived
      ensures View() == ArchiveBlock(old(View()))
    {
      archived := true;
    }

    /** `Range`: one series' points in [start, end). */
    method Range(series: nat, rng: QueryRange) returns (out: seq<Point<V>>)
      requires WellFormedTable(byID) && Sliceable(PointsOf(byID, series), rng)
      ensures out == InRange(PointsOf(byID, series), rng)
    {
      out := Slice(PointsOf(byID, series), rng);
    }
  }

  class Store<V> {
    var blocks: map<nat, Block<V>>
    var nextID: nat
    var removed: nat

    ghost function Repr(): (r: set<object>)
      reads this`blocks
      ensures this in r
    {
      {this} + blocks.Values
    }

    /** Distinct objects, filed under their own ids. */
    ghost predicate Valid()
      reads this`blocks, this`nextID
    {
      && (forall i, j :: i in blocks && j in blocks && i != j ==> blocks[i] != blocks[j])
      && (forall i :: i in blocks ==> blocks[i].id == i && 1 <= i <= nextID)
    }

    /** `b` is the block filed under its id. */
    ghost predicate Holds(b: Block<V>)
      reads this`blocks
      ensures Holds(b) ==> b in Repr()
    {
      b.id in blocks && blocks[b.id] == b
    }

    ghost function Shown(): map<nat, BlockV<V>>
      reads this`blocks, blocks.Values
    {
      map i | i in blocks :: blocks[i].View()
    }

    ghost function View(): StoreV<V>
      reads this, Repr()
    {
      StoreV(Shown(), nextID, removed)
    }

    constructor ()
      ensures Valid() && fresh(Repr()) && View() == StoreV(map[], 0, 0)
    {
      blocks, nextID, removed := map[], 0, 0;
    }

    /** `Create`. */
    method Create(byID: Table<V>, minTS: int, maxTS: int) returns (b: Block<V>)
      requires Valid()
      modifies this
      ensures Valid() && (forall o :: o in Repr() ==> o in old(Repr()) || fresh(o))
      ensures View() == CreateIn(old(View()), byID, minTS, maxTS)
      ensures nextID in blocks && b == blocks[nextID] && b.id == nextID && b.state == BlockImmutable && fresh(b)
      ensures forall i :: i in old(blocks) ==> i in blocks && blocks[i] == old(blocks)[i]
    {
      hide Shown;
      nextID := nextID + 1;
      b := new Block(nextID, byID, minTS, maxTS);
      b.state := BlockImmutable;
      File(b);
    }

    method File(b: Block<V>)
      requires Valid() && b.id !in blocks && 1 <= b.id <= nextID
      requires forall i :: i in blocks ==> blocks[i] != b
      modifies this`blocks
      ensures Valid() && blocks == old(blocks)[b.id := b]
      ensures Shown() == old(Shown())[b.id := b.View()]
    {
      blocks := blocks[b.id := b];
    }

    /** `Create`, then the caller's `Seal`, which finds the block immutable already. */
    method CreateSealed(byID: Table<V>, minTS: int, maxTS: int) returns (b: Block<V>)
      requires Valid()
      modifies this
      ensures Valid() && (forall o :: o in Repr() ==> o in old(Repr()) || fresh(o))
      ensures View() == CreateIn(old(View()), byID, minTS, maxTS)
      ensures b.id == View().nextID && fresh(b)
      ensures forall o :: old(allocated(o)) && old(Holds(o)) ==> Holds(o)
    {
      b := Create(byID, minTS, maxTS);
      b.Seal();
    }

    /** `Open`: nothing for an unknown id, an error for an archived block. */
    method Open(id: nat) returns (r: Result<Option<Block<V>>>)
      requires Valid()
      modifies blocks.Values
      ensures Valid() && Repr() == old(Repr()) && View() == OpenIn(old(View()), id)
      ensures id in blocks <==> id in old(View()).blocks
      ensures r == if id !in old(View()).blocks then Ok(None)
                   else if old(View()).blocks[id].archived then Err(AlreadyArchived)
                   else Ok(Some(blocks[id]))
      ensures r.Ok? && r.value.Some? ==>
                Holds(r.value.value) && r.value.value.id == id && View().blocks[id] == r.value.value.View()
    {
      assert id in blocks ==> Shown()[id] == blocks[id].View();
      if id !in blocks {
        return Ok(None);
      }
      var b := blocks[id];
      var ok := b.Acquire();
      r := if ok then Ok(Some(b)) else Err(AlreadyArchived);
    }

    /** `Close`. A block no longer filed loses its reference all the same, out of the store's sight. */
    method Close(b: Block<V>)
      requires Valid()
      modifies b`refs
      ensures Valid() && Repr() == old(Repr()) && b.View() == ReleaseBlock(old(b.View()))
      ensures View() == if old(Holds(b)) then CloseIn(old(View()), b.id) else old(View())
    {
      b.Release();
      assert !Holds(b) ==> forall id :: id in blocks ==> blocks[id] != b;
    }

    /** `MarkArchived`. */
    method MarkArchived(id: nat)
      requires Valid()
      modifies blocks.Values
      ensures Valid() && Repr() == old(Repr()) && View() == ArchiveIn(old(View()), id)
    {
      if id in blocks {
        blocks[id].MarkArchived();
      }
    }

    /** `MarkArchived` on a block already in hand. */
    method ArchiveHeld(b: Block<V>)
      requires Valid() && Holds(b)
      modifies b`archived
      ensures Valid() && Repr() == old(Repr()) && View() == ArchiveIn(old(View()), b.id)
    {
      b.MarkArchived();
    }

    method MarkCompacting(b: Block<V>)
      requires Valid() && Holds(b)
      modifies b`state
      ensures Valid() && Repr() == old(Repr()) && View() == CompactingIn(old(View()), b.id)
    {
      b.MarkCompacting();
    }

    /** `Reclaim`: removes every archived block without readers. */
    method Reclaim() returns (count: nat)
      requires Valid()
      modifies this
      ensures Valid() && Repr() <= old(Repr())
      ensures forall i :: i in blocks ==> i in old(blocks) && blocks[i] == old(blocks)[i]
      ensures View() == ReclaimIn(old(View()))
      ensures count == |Unclaimed(old(View()))|
      ensures (var was := old(View()).blocks; count == |set id | id in was && was[id].archived && was[id].refs == 0|)
    {
      hide Reclaimable, Shown, Unswept, Swept, Valid, ReclaimIn, Unclaimed;
      count := 0;
      var rest := blocks.Keys;
      ghost var m := Shown();
      SweepStart(m);
      ShownKeys();
      while rest != {}
        invariant Valid() && nextID == old(nextID)
        invariant rest <= m.Keys && rest <= blocks.Keys
        invariant forall i :: i in blocks ==> i in old(blocks) && blocks[i] == old(blocks)[i]
        invariant Shown() == Unswept(m, rest)
        invariant count == |Swept(m, rest)| && removed == old(removed) + count
        decreases |rest|
      {
        var id :| id in rest;
        ShownKeys();
        var did := ReclaimOne(id);
        SweepStep(m, rest, id);
        rest := rest - {id};
        if did { count := count + 1; }
      }
      SweepEnd(old(View()));
      ReclaimInIs(old(View()));
      ReclaimTakes(old(View()), 0);
    }

    method ReclaimOne(id: nat) returns (did: bool)
      requires Valid() && id in blocks
      modifies this
      ensures Valid() && nextID == old(nextID)
      ensures id in old(Shown()) && did == Reclaimable(old(Shown())[id])
      ensures blocks == if did then old(blocks) - {id} else old(blocks)
      ensures Shown() == if did then old(Shown()) - {id} else old(Shown())
      ensures removed == if did then old(removed) + 1 else old(removed)
    {
      assert old(Shown())[id] == blocks[id].View();
      did := blocks[id].archived && blocks[id].refs == 0;
      if did {
        blocks := blocks - {id};
        removed := removed + 1;
      }
    }

    lemma ReclaimInIs(s: StoreV<V>)
      ensures ReclaimIn(s) == s.(blocks := s.blocks - Unclaimed(s), removed := s.removed + |Unclaimed(s)|)
    {
    }

    lemma ShownKeys()
      ensures Shown().Keys == blocks.Keys
    {
    }

    /** `List`. */
    method List() returns (ids: set<nat>)
      ensures ids == View().blocks.Keys == blocks.Keys
    {
      ids := blocks.Keys;
    }
  }
}
