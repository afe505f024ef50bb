/** The series index: a bucketed hash table, for any hash function, against one flat map. */
module SeriesIndex {
  import opened Model
  import opened Labels

  datatype SeriesMeta = SeriesMeta(id: nat, name: string, labels: LabelSet)

  /** The index as a value: one map from key to series. */
  datatype IndexV = IndexV(flat: map<string, SeriesMeta>, nextID: nat)

  // ----- the operations on values -----

  ghost function RegisterIn(ix: IndexV, name: string, labels: LabelSet): IndexV {
    var key := KeyOf(name, labels);
    if key in ix.flat then ix
    else IndexV(ix.flat[key := SeriesMeta(ix.nextID, name, labels)], ix.nextID + 1)
  }

  ghost function LookupIn(ix: IndexV, name: string, labels: LabelSet): Option<SeriesMeta> {
    var key := KeyOf(name, labels);
    if key in ix.flat then Some(ix.flat[key]) else None
  }

  function EmptyIndex(): IndexV {
    IndexV(map[], 1)
  }

  ghost predicate HasId(flat: map<string, SeriesMeta>, id: nat) {
    exists k :: k in flat && flat[k].id == id
  }

  /** Ids are unique and exactly 1..nextID-1, and each series is filed under its own key. */
  ghost predicate IndexInvariant(ix: IndexV) {
    && ix.nextID >= 1
    && (forall k :: k in ix.flat ==> 1 <= ix.flat[k].id < ix.nextID && k == KeyOf(ix.flat[k].name, ix.flat[k].labels))
    && (forall k, l :: k in ix.flat && l in ix.flat && ix.flat[k].id == ix.flat[l].id ==> k == l)
    && (forall id :: 1 <= id < ix.nextID ==> HasId(ix.flat, id))
    && |ix.flat| == ix.nextID - 1
  }

  lemma HasIdKept(flat: map<string, SeriesMeta>, key: string, meta: SeriesMeta, id: nat)
    requires key !in flat && HasId(flat, id)
    ensures HasId(flat[key := meta], id)
  {
    var k :| k in flat && flat[k].id == id;
    assert flat[key := meta][k].id == id;
  }

  lemma NewIdHeld(flat: map<string, SeriesMeta>, key: string)
    requires key in flat
    ensures HasId(flat, flat[key].id)
  {
  }

  lemma RegisterKeeps(ix: IndexV, name: string, labels: LabelSet)
    requires IndexInvariant(ix)
    ensures IndexInvariant(RegisterIn(ix, name, labels))
    ensures LookupIn(RegisterIn(ix, name, labels), name, labels).Some?
  {
    hide KeyOf, HasId;
    var key, out := KeyOf(name, labels), RegisterIn(ix, name, labels);
    if key !in ix.flat {
      NewIdHeld(out.flat, key);
      forall id | 1 <= id < out.nextID ensures HasId(out.flat, id) {
        if id < ix.nextID { HasIdKept(ix.flat, key, out.flat[key], id); }
      }
    }
  }

  /** Registering one series changes no other lookup, and never an assigned id. */
  lemma RegisterFrame(ix: IndexV, name: string, labels: LabelSet, other: string, otherLabels: LabelSet)
    requires KeyOf(other, otherLabels) != KeyOf(name, labels) || LookupIn(ix, other, otherLabels).Some?
    ensures LookupIn(RegisterIn(ix, name, labels), other, otherLabels) == LookupIn(ix, other, otherLabels)
  {
    hide KeyOf;
  }

  ghost function RegisterAll(ix: IndexV, ops: seq<(string, LabelSet)>): IndexV
    decreases |ops|
  {
    if ops == [] then ix else RegisterAll(RegisterIn(ix, ops[0].0, ops[0].1), ops[1..])
  }

  /** Over every run of registrations (expansions change nothing here): the invariant holds, and
      a series once found is found with the same id ever after. */
  lemma {:induction false} RunsKeepIndex(ix: IndexV, ops: seq<(string, LabelSet)>, name: string, labels: LabelSet)
    requires IndexInvariant(ix)
    ensures IndexInvariant(RegisterAll(ix, ops))
    ensures LookupIn(ix, name, labels).Some? ==>
              LookupIn(RegisterAll(ix, ops), name, labels) == LookupIn(ix, name, labels)
    decreases |ops|
  {
    hide IndexInvariant, KeyOf, RegisterIn, LookupIn;
    if ops != [] {
      RegisterKeeps(ix, ops[0].0, ops[0].1);
      if LookupIn(ix, name, labels).Some? {
        RegisterFrame(ix, ops[0].0, ops[0].1, name, labels);
      }
      RunsKeepIndex(RegisterIn(ix, ops[0].0, ops[0].1), ops[1..], name, labels);
    }
  }

  lemma SameIdSameKey(ix: IndexV, n1: string, l1: LabelSet, n2: string, l2: LabelSet)
    requires IndexInvariant(ix) && LookupIn(ix, n1, l1).Some? && LookupIn(ix, n2, l2).Some?
    ensures LookupIn(ix, n1, l1).value.id == LookupIn(ix, n2, l2).value.id <==> KeyOf(n1, l1) == KeyOf(n2, l2)
  {
    hide KeyOf, HasId;
  }

  /** Unambiguous series get the same id exactly when they are the same series. */
  lemma SameIdSameSeries(ix: IndexV, n1: string, l1: LabelSet, n2: string, l2: LabelSet)
    requires IndexInvariant(ix) && Unambiguous(n1, l1) && Unambiguous(n2, l2)
    requires LookupIn(ix, n1, l1).Some? && LookupIn(ix, n2, l2).Some?
    ensures LookupIn(ix, n1, l1).value.id == LookupIn(ix, n2, l2).value.id <==> n1 == n2 && l1 == l2
  {
    hide KeyOf, IndexInvariant, LookupIn;
    SameIdSameKey(ix, n1, l1, n2, l2);
    if KeyOf(n1, l1) == KeyOf(n2, l2) { KeyInjective(n1, l1, n2, l2); }
  }

  // ----- restarts -----

  /** The keys some registrations file, each once, in the order of their first registration. */
  ghost function FirstKeys(ops: seq<(string, LabelSet)>): seq<string>
    decreases |ops|
  {
    if ops == [] then []
    else
      var n := |ops| - 1;
      var keys, key := FirstKeys(ops[..n]), KeyOf(ops[n].0, ops[n].1);
      if key in keys then keys else keys + [key]
  }

  /** The index of a new process after some registrations. */
  ghost function Started(ops: seq<(string, LabelSet)>): IndexV {
    RegisterAll(EmptyIndex(), ops)
  }

  lemma {:induction false} RegisterLast(ix: IndexV, ops: seq<(string, LabelSet)>)
    requires ops != []
    ensures (var n := |ops| - 1;
             RegisterAll(ix, ops) == RegisterIn(RegisterAll(ix, ops[..n]), ops[n].0, ops[n].1))
    decreases |ops|
  {
    hide RegisterIn;
    var n := |ops| - 1;
    if n > 0 {
      RegisterLast(RegisterIn(ix, ops[0].0, ops[0].1), ops[1..]);
      assert ops[1..][..n - 1] == ops[..n][1..];
    }
  }

  /** The n-th key is filed under id n + 1, and no other key is filed. */
  ghost predicate Numbers(keys: seq<string>, ix: IndexV) {
    && ix.nextID == |keys| + 1
    && (forall i :: 0 <= i < |keys| ==> keys[i] in ix.flat && ix.flat[keys[i]].id == i + 1)
    && forall k :: k in ix.flat ==> k in keys
  }

  lemma {:induction false} KeysNumber(ops: seq<(string, LabelSet)>)
    ensures Numbers(FirstKeys(ops), Started(ops))
    decreases |ops|
  {
    hide KeyOf;
    if ops != [] {
      var n := |ops| - 1;
      KeysNumber(ops[..n]);
      RegisterLast(EmptyIndex(), ops);
    }
  }

  lemma StartedInvariant(ops: seq<(string, LabelSet)>)
    ensures IndexInvariant(Started(ops))
  {
    hide KeyOf;
    assert IndexInvariant(EmptyIndex());
    RunsKeepIndex(EmptyIndex(), ops, "", map[]);
  }

  /** Every series a new process knows has the id it had before. */
  ghost predicate KeepsIds(before: IndexV, after: IndexV) {
    forall name, labels :: LookupIn(after, name, labels).Some? ==>
                             && LookupIn(before, name, labels).Some?
                             && LookupIn(after, name, labels).value.id == LookupIn(before, name, labels).value.id
  }

  /** No id means one series before and another after, so no logged sample is answered for a series
      it was not written to. */
  ghost predicate MixesNoSeries(before: IndexV, after: IndexV) {
    forall k, l :: k in before.flat && l in after.flat && before.flat[k].id == after.flat[l].id ==> k == l
  }

  /** The index is not saved, and a new process hands out ids from 1 again. Every series it registers
      gets its former id if and only if the keys it registers are, in order of first registration, the
      first ones that were registered before. */
  lemma RestartKeepsIds(a: seq<(string, LabelSet)>, b: seq<(string, LabelSet)>)
    ensures KeepsIds(Started(a), Started(b)) <==> FirstKeys(b) <= FirstKeys(a)
  {
    hide KeyOf, FirstKeys, Started, KeepsIds, Numbers, IndexInvariant;
    var before, after, ka, kb := Started(a), Started(b), FirstKeys(a), FirstKeys(b);
    KeysNumber(a);
    KeysNumber(b);
    if KeepsIds(before, after) {
      StartedInvariant(b);
      KeptPrefix(ka, before, kb, after);
    }
    if kb <= ka { PrefixKeepsIds(ka, before, kb, after); }
  }

  lemma PrefixKeepsIds(ka: seq<string>, before: IndexV, kb: seq<string>, after: IndexV)
    requires Numbers(ka, before) && Numbers(kb, after) && kb <= ka
    ensures KeepsIds(before, after)
  {
    hide KeyOf;
    forall k | k in after.flat ensures k in before.flat && before.flat[k].id == after.flat[k].id {
      var i :| 0 <= i < |kb| && kb[i] == k;
      assert ka[i] == k;
    }
  }

  lemma KeptPrefix(ka: seq<string>, before: IndexV, kb: seq<string>, after: IndexV)
    requires Numbers(ka, before) && Numbers(kb, after) && IndexInvariant(after) && KeepsIds(before, after)
    ensures kb <= ka
  {
    hide KeyOf, KeepsIds, Numbers, IndexInvariant;
    forall i | 0 <= i < |kb| ensures i < |ka| && ka[i] == kb[i] { KeptPlace(ka, before, kb, after, i); }
    if kb != [] { KeptPlace(ka, before, kb, after, |kb| - 1); }
  }

  lemma KeptPlace(ka: seq<string>, before: IndexV, kb: seq<string>, after: IndexV, i: nat)
    requires Numbers(ka, before) && Numbers(kb, after) && IndexInvariant(after) && KeepsIds(before, after) && i < |kb|
    ensures i < |ka| && ka[i] == kb[i]
  {
    hide KeyOf, HasId;
    var meta := after.flat[kb[i]];
    assert LookupIn(after, meta.name, meta.labels) == Some(meta);
    assert kb[i] in before.flat && before.flat[kb[i]].id == i + 1;
    var j :| 0 <= j < |ka| && ka[j] == kb[i];
    assert before.flat[ka[j]].id == j + 1;
  }

  /** No sample changes series if and only if one list of keys is a prefix of the other. */
  lemma RestartMixesNothing(a: seq<(string, LabelSet)>, b: seq<(string, LabelSet)>)
    ensures MixesNoSeries(Started(a), Started(b)) <==> FirstKeys(b) <= FirstKeys(a) || FirstKeys(a) <= FirstKeys(b)
  {
    hide KeyOf, FirstKeys, Started;
    var before, after, ka, kb := Started(a), Started(b), FirstKeys(a), FirstKeys(b);
    KeysNumber(a);
    KeysNumber(b);
    if MixesNoSeries(before, after) {
      forall i | 0 <= i < |ka| && i < |kb| ensures ka[i] == kb[i] {
        assert before.flat[ka[i]].id == after.flat[kb[i]].id;
      }
    }
  }

  /** Two series registered in the other order come back under each other's ids. */
  lemma RestartRenumbers(n1: string, l1: LabelSet, n2: string, l2: LabelSet)
    requires Unambiguous(n1, l1) && Unambiguous(n2, l2) && (n1 != n2 || l1 != l2)
    ensures !MixesNoSeries(Started([(n1, l1), (n2, l2)]), Started([(n2, l2), (n1, l1)]))
  {
    hide KeyOf;
    var a, b := [(n1, l1), (n2, l2)], [(n2, l2), (n1, l1)];
    if KeyOf(n1, l1) == KeyOf(n2, l2) { KeyInjective(n1, l1, n2, l2); }
    TwoKeys((n1, l1), (n2, l2));
    TwoKeys((n2, l2), (n1, l1));
    RestartMixesNothing(a, b);
    assert FirstKeys(a)[0] != FirstKeys(b)[0];
  }

  lemma TwoKeys(x: (string, LabelSet), y: (string, LabelSet))
    requires KeyOf(x.0, x.1) != KeyOf(y.0, y.1)
    ensures FirstKeys([x, y]) == [KeyOf(x.0, x.1), KeyOf(y.0, y.1)]
  {
    hide KeyOf;
    assert [x, y][..1] == [x];
    assert [x][..0] == [];
    assert FirstKeys([x]) == [KeyOf(x.0, x.1)];
  }

  // ----- buckets -----

  function Slot(hash: string -> nat, key: string, buckets: nat): nat
    requires buckets > 0
    ensures Slot(hash, key, buckets) < buckets
  {
    hash(key) % buckets
  }

  /** The buckets hold the entries of `flat` with a key in `keys`, each in its own slot. */
  ghost predicate Files(hash: string -> nat, buckets: seq<map<string, SeriesMeta>>, flat: map<string, SeriesMeta>,
                        keys: set<string>) {
    && |buckets| > 0
    && (forall i, k :: 0 <= i < |buckets| && k in buckets[i] ==>
                         i == Slot(hash, k, |buckets|) && k in keys && k in flat && buckets[i][k] == flat[k])
    && forall k :: k in keys && k in flat ==> k in buckets[Slot(hash, k, |buckets|)]
  }

  lemma FilesMore(hash: string -> nat, buckets: seq<map<string, SeriesMeta>>, flat: map<string, SeriesMeta>,
                  keys: set<string>, key: string)
    requires Files(hash, buckets, flat, keys) && key in flat
    ensures (var s := Slot(hash, key, |buckets|);
             Files(hash, buckets[s := buckets[s][key := flat[key]]], flat, keys + {key}))
  {
    hide Slot;
  }

  lemma FilesEmpty(hash: string -> nat, n: nat, flat: map<string, SeriesMeta>)
    requires n > 0
    ensures Files(hash, seq(n, i => map[]), flat, {})
  {
  }

  /** The flat entries that belong in the first n slots. */
  function InSlotsBelow(hash: string -> nat, flat: map<string, SeriesMeta>, buckets: nat, n: nat)
    : map<string, SeriesMeta>
    requires buckets > 0
  {
    map k | k in flat && Slot(hash, k, buckets) < n :: flat[k]
  }

  lemma NextSlot(hash: string -> nat, buckets: seq<map<string, SeriesMeta>>, flat: map<string, SeriesMeta>, n: nat)
    requires Files(hash, buckets, flat, flat.Keys) && n < |buckets|
    ensures |InSlotsBelow(hash, flat, |buckets|, n + 1)| == |InSlotsBelow(hash, flat, |buckets|, n)| + |buckets[n]|
  {
    hide Slot;
    var a, b := InSlotsBelow(hash, flat, |buckets|, n), InSlotsBelow(hash, flat, |buckets|, n + 1);
    SlotKeys(hash, buckets, flat, n);
    assert |b.Keys| == |a.Keys| + |buckets[n].Keys|;
  }

  lemma SlotKeys(hash: string -> nat, buckets: seq<map<string, SeriesMeta>>, flat: map<string, SeriesMeta>, n: nat)
    requires Files(hash, buckets, flat, flat.Keys) && n < |buckets|
    ensures InSlotsBelow(hash, flat, |buckets|, n + 1).Keys
         == InSlotsBelow(hash, flat, |buckets|, n).Keys + buckets[n].Keys
    ensures InSlotsBelow(hash, flat, |buckets|, n).Keys !! buckets[n].Keys
  {
    hide Slot;
  }

  lemma AllSlots(hash: string -> nat, flat: map<string, SeriesMeta>, buckets: nat)
    requires buckets > 0
    ensures InSlotsBelow(hash, flat, buckets, 0) == map[] && InSlotsBelow(hash, flat, buckets, buckets) == flat
  {
    hide Slot;
  }

  lemma BucketEntry(hash: string -> nat, buckets: seq<map<string, SeriesMeta>>, flat: map<string, SeriesMeta>,
                    i: nat, key: string)
    requires Files(hash, buckets, flat, flat.Keys) && i < |buckets|
    ensures key in buckets[i] <==> key in flat && Slot(hash, key, |buckets|) == i
    ensures key in buckets[i] ==> buckets[i][key] == flat[key]
  {
    hide Slot;
  }

  class Index {
    const hash: string -> nat
    var buckets: seq<map<string, SeriesMeta>>
    var nextID: nat
    ghost var flat: map<string, SeriesMeta>

    ghost predicate Valid()
      reads this
    {
      |buckets| > 0 && Files(hash, buckets, flat, flat.Keys)
    }

    ghost function View(): IndexV
      reads this
    {
      IndexV(flat, nextID)
    }

    /** `NewIndex`: at least one bucket. */
    constructor (hash: string -> nat, initialBuckets: int)
      ensures Valid() && View() == EmptyIndex() && this.hash == hash
      ensures |buckets| == if initialBuckets < 1 then 1 else initialBuckets
    {
      var n := if initialBuckets < 1 then 1 else initialBuckets;
      this.hash := hash;
      buckets := seq(n, i => map[]);
      nextID := 1;
      flat := map[];
    }

    /** `Register`: the existing series under this key, or a new one with the next id. */
    method Register(name: string, labels: LabelSet) returns (meta: SeriesMeta, created: bool)
      requires Valid()
      modifies this
      ensures Valid() && View() == RegisterIn(old(View()), name, labels)
      ensures LookupIn(View(), name, labels) == Some(meta)
      ensures created <==> LookupIn(old(View()), name, labels).None?
      ensures |buckets| == old(|buckets|)
    {
      hide KeyOf;
      var key := LabelsKey(name, labels);
      var slot := Slot(hash, key, |buckets|);
      if key in buckets[slot] {
        return buckets[slot][key], false;
      }
      meta, created := SeriesMeta(nextID, name, labels), true;
      flat := flat[key := meta];
      assert Files(hash, buckets, flat, flat.Keys - {key});
      FilesMore(hash, buckets, flat, flat.Keys - {key}, key);
      assert flat.Keys - {key} + {key} == flat.Keys;
      nextID := nextID + 1;
      buckets := buckets[slot := buckets[slot][key := meta]];
    }

    /** `Lookup`. */
    method Lookup(name: string, labels: LabelSet) returns (r: Option<SeriesMeta>)
      requires Valid()
      ensures r == LookupIn(View(), name, labels)
    {
      hide KeyOf;
      var key := LabelsKey(name, labels);
      var slot := Slot(hash, key, |buckets|);
      r := if key in buckets[slot] then Some(buckets[slot][key]) else None;
    }

    /** `Len`: the bucket sizes added up are the number of series. */
    method Len() returns (total: nat)
      requires Valid()
      ensures total == |flat|
    {
      hide Files, InSlotsBelow;
      total := 0;
      AllSlots(hash, flat, |buckets|);
      for i := 0 to |buckets|
        invariant total == |InSlotsBelow(hash, flat, |buckets|, i)|
      {
        NextSlot(hash, buckets, flat, i);
        total := total + |buckets[i]|;
      }
    }

    /** `Expand`: rehashes every entry into a larger table; no lookup changes. */
    method Expand(newBuckets: int) returns (r: Result<()>)
      requires Valid()
      modifies this`buckets
      ensures Valid() && View() == old(View())
      ensures r.Ok? <==> newBuckets > old(|buckets|)
      ensures r.Err? ==> r.error == NotLarger
      ensures |buckets| == if r.Ok? then newBuckets else old(|buckets|)
    {
      if newBuckets <= |buckets| {
        return Err(NotLarger);
      }
      hide Files, InSlotsBelow;
      var table := buckets;
      AllSlots(hash, flat, |table|);
      var next: seq<map<string, SeriesMeta>> := seq(newBuckets, i => map[]);
      ghost var keys: set<string> := {};
      FilesEmpty(hash, newBuckets, flat);
      for i := 0 to |table|
        invariant |next| == newBuckets && Files(hash, next, flat, keys)
        invariant keys == InSlotsBelow(hash, flat, |table|, i).Keys
      {
        forall k | k in table[i] ensures k in flat && flat[k] == table[i][k] {
          BucketEntry(hash, table, flat, i, k);
        }
        next := Rehash(table[i], next, keys);
        SlotKeys(hash, table, flat, i);
        keys := keys + table[i].Keys;
      }
      buckets := next;
      r := Ok(());
    }

    /** The inner loop of `Expand`: one old bucket moved into the new table. */
    method Rehash(bucket: map<string, SeriesMeta>, next: seq<map<string, SeriesMeta>>, ghost keys: set<string>)
      returns (out: seq<map<string, SeriesMeta>>)
      requires Files(hash, next, flat, keys)
      requires forall k :: k in bucket ==> k in flat && flat[k] == bucket[k]
      ensures Files(hash, out, flat, keys + bucket.Keys) && |out| == |next|
    {
      hide Files;
      out := next;
      SlotsExist(out, keys);
      var rest := bucket.Keys;
      ghost var done: set<string> := {};
      while rest != {}
        invariant rest <= bucket.Keys && done == bucket.Keys - rest
        invariant Files(hash, out, flat, keys + done) && |out| == |next|
        decreases |rest|
      {
        var key :| key in rest;
        rest := rest - {key};
        var slot := Slot(hash, key, |out|);
        FilesMore(hash, out, flat, keys + done, key);
        assert keys + done + {key} == keys + (done + {key});
        done := done + {key};
        out := out[slot := out[slot][key := bucket[key]]];
      }
      assert done == bucket.Keys;
    }

    lemma SlotsExist(b: seq<map<string, SeriesMeta>>, keys: set<string>)
      requires Files(hash, b, flat, keys)
      ensures |b| > 0 && keys + {} == keys
    {
      assert keys + {} == keys;
    }

    /** `MetaByID`: a scan of the buckets; it inverts registration. */
    method MetaByID(id: nat) returns (r: Option<SeriesMeta>)
      requires Valid() && IndexInvariant(View())
      ensures r.Some? <==> 1 <= id < nextID
      ensures r.Some? ==> r.value.id == id && LookupIn(View(), r.value.name, r.value.labels) == r
    {
      hide Files, Slot, KeyOf;
      for i := 0 to |buckets|
        invariant forall k :: k in flat && Slot(hash, k, |buckets|) < i ==> flat[k].id != id
      {
        r := ScanBucket(i, id);
        if r.Some? {
          return;
        }
      }
      assert !HasId(flat, id);
      r := None;
    }

    /** The inner loop of `MetaByID`. */
    method ScanBucket(i: nat, id: nat) returns (r: Option<SeriesMeta>)
      requires Valid() && i < |buckets|
      ensures r.Some? ==> exists k :: k in flat && flat[k] == r.value && r.value.id == id
      ensures r.None? ==> forall k :: k in flat && Slot(hash, k, |buckets|) == i ==> flat[k].id != id
    {
      hide Files, Slot;
      forall k ensures k in buckets[i] <==> k in flat && Slot(hash, k, |buckets|) == i
        ensures k in buckets[i] ==> buckets[i][k] == flat[k]
      {
        BucketEntry(hash, buckets, flat, i, k);
      }
      var rest := buckets[i].Keys;
      while rest != {}
        invariant rest <= buckets[i].Keys
        invariant forall k :: k in buckets[i] && k !in rest ==> flat[k].id != id
        decreases |rest|
      {
        var key :| key in rest;
        if buckets[i][key].id == id {
          return Some(buckets[i][key]);
        }
        rest := rest - {key};
      }
      r := None;
    }
  }
}
