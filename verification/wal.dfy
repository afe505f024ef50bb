/** The write-ahead log: numbered segments, sequence numbers, the replay watermark.

    `Log` is the log as a value and the functions on it say what each operation does; the
    class `WAL` performs the same operations in place. */
module Wal {
  import opened Bytes
  import opened Model
  import opened WalRecord

  /** The size of a segment's write buffer. */
  const BUFFER := 65536

  /** One segment: the bytes of its file, the bytes still in its buffer, and what the log
      remembers about it. */
  datatype Seg = Seg(file: seq<Byte>, buf: seq<Byte>, first: U64, last: U64, size: int) {
    /** Everything written, synced or not. */
    function Written(): seq<Byte> { file + buf }
  }

  /** The log. `checkpoint` is the watermark on disk. */
  datatype Log = Log(segs: map<nat, Seg>, nextSeq: U64, nextReplay: U64, maxSize: int, checkpoint: Option<U64>)

  // ----- segments -----

  /** The largest sequence number, 0 if there is none. */
  function LastOf(recs: seq<Record>): U64 {
    if recs == [] then 0
    else
      var n := |recs| - 1;
      if recs[n].seqNo > LastOf(recs[..n]) then recs[n].seqNo else LastOf(recs[..n])
  }

  /** The smallest sequence number, the largest 64-bit one if there is none. */
  function FirstOf(recs: seq<Record>): U64 {
    if recs == [] then MAX_U64
    else
      var n := |recs| - 1;
      if recs[n].seqNo < FirstOf(recs[..n]) then recs[n].seqNo else FirstOf(recs[..n])
  }

  /** `openSegment` on a file with these bytes. */
  function OpenSeg(crc: Checksum, file: seq<Byte>): Seg {
    var recs := Records(crc, file);
    Seg(file, [], if FirstOf(recs) == MAX_U64 then 0 else FirstOf(recs), LastOf(recs), |file|)
  }

  /** A buffered write: when the buffer overflows, one full buffer is spilled to the file,
      which may cut a record in two. */
  function Buffered(s: Seg, data: seq<Byte>): Seg {
    var pending := s.buf + data;
    if |pending| <= BUFFER then s.(buf := pending)
    else s.(file := s.file + pending[..BUFFER], buf := pending[BUFFER..])
  }

  function WriteSeg(crc: Checksum, s: Seg, rec: Record): Seg {
    var data := Encode(crc, rec);
    Buffered(s, data).(
    size := s.size + |data|,
    first := if rec.seqNo < s.first || s.first == 0 then rec.seqNo else s.first,
    last := if rec.seqNo > s.last then rec.seqNo else s.last)
  }

  function FlushSeg(s: Seg): Seg {
    s.(file := s.file + s.buf, buf := [])
  }

  /** The object behind one segment file. */
  class Segment {
    var file: seq<Byte>
    var buf: seq<Byte>
    var first: U64
    var last: U64
    var size: int

    function View(): Seg
      reads this
    {
      Seg(file, buf, first, last, size)
    }

    constructor Open(crc: Checksum, bytes: seq<Byte>)
      ensures View() == OpenSeg(crc, bytes)
    {
      hide Records, Found;
      var lo: U64, hi: U64 := MAX_U64, 0;
      var rest := bytes;
      ghost var seen: seq<Record> := [];
      while rest != []
        invariant seen + Records(crc, rest) == Records(crc, bytes)
        invariant lo == FirstOf(seen) && hi == LastOf(seen)
        decreases |rest|
      {
        var decoded, after := NextRecord(crc, rest);
        ghost var tail := Records(crc, after);
        FoundIs(decoded);
        if decoded.Some? {
          var seqNo := decoded.value.seqNo;
          assert seen + ([decoded.value] + tail) == (seen + [decoded.value]) + tail;
          assert (seen + [decoded.value])[..|seen|] == seen;
          if seqNo < lo { lo := seqNo; }
          if seqNo > hi { hi := seqNo; }
          seen := seen + [decoded.value];
        } else {
          assert seen + ([] + tail) == seen + tail;
        }
        rest := after;
      }
      NothingToScan(crc);
      assert seen == Records(crc, bytes);
      file, buf, last, size := bytes, [], hi, |bytes|;
      first := if lo == MAX_U64 then 0 else lo;
    }

    method Write(crc: Checksum, rec: Record)
      modifies this
      ensures View() == WriteSeg(crc, old(View()), rec)
    {
      var data := EncodeRecord(crc, rec);
      var pending := buf + data;
      if |pending| <= BUFFER {
        buf := pending;
      } else {
        file := file + pending[..BUFFER];
        buf := pending[BUFFER..];
      }
      size := size + |data|;
      if rec.seqNo < first || first == 0 {
        first := rec.seqNo;
      }
      if rec.seqNo > last {
        last := rec.seqNo;
      }
    }

    method Flush()
      modifies this
      ensures View() == FlushSeg(old(View()))
    {
      file := file + buf;
      buf := [];
    }
  }

  lemma FoundIs(decoded: Option<Record>)
    ensures Found(decoded) == if decoded.Some? then [decoded.value] else []
  {
  }

  // ----- the log as a value -----

  /** The largest index, 0 if there is none. */
  ghost function MaxIndex(keys: set<nat>): (m: nat)
    ensures forall k :: k in keys ==> k <= m
    ensures m == 0 || m in keys
  {
    if keys == {} then 0
    else
      var k :| k in keys;
      var m := MaxIndex(keys - {k});
      assert forall j :: j in keys ==> j == k || j in keys - {k};
      if k > m then k else m
  }

  lemma MaxIndexIs(keys: set<nat>, m: nat)
    requires forall k :: k in keys ==> k <= m
    requires m == 0 || m in keys
    ensures MaxIndex(keys) == m
  {
  }

  ghost function Current(w: Log): nat {
    MaxIndex(w.segs.Keys)
  }

  /** A log always has a segment to write to. */
  ghost predicate HasCurrent(w: Log) {
    w.segs != map[]
  }

  lemma CurrentExists(w: Log)
    requires HasCurrent(w)
    ensures Current(w) in w.segs
  {
    var k :| k in w.segs;
    assert k <= Current(w);
  }

  ghost function RotateLog(crc: Checksum, w: Log): (r: Log)
    ensures HasCurrent(r)
    ensures r.nextSeq == w.nextSeq
  {
    assert Current(w) + 1 in w.segs[Current(w) + 1 := OpenSeg(crc, [])];
    w.(segs := w.segs[Current(w) + 1 := OpenSeg(crc, [])])
  }

  /** A full current segment is flushed and a new one is opened. */
  ghost function MakeRoomLog(crc: Checksum, w: Log): (r: Log)
    requires HasCurrent(w)
    ensures HasCurrent(r)
  {
    CurrentExists(w);
    if w.segs[Current(w)].size >= w.maxSize then RotateLog(crc, SyncLog(w)) else w
  }

  /** `Append`: the record gets the next sequence number and goes to the current segment, or to
      a new one when the current one is full. */
  ghost function AppendLog(crc: Checksum, w: Log, rec: Record): (r: Log)
    requires HasCurrent(w)
    ensures HasCurrent(r)
  {
    var base := MakeRoomLog(crc, w);
    CurrentExists(base);
    var cur := Current(base);
    assert cur in base.segs[cur := WriteSeg(crc, base.segs[cur], rec.(seqNo := w.nextSeq))];
    base.(segs := base.segs[cur := WriteSeg(crc, base.segs[cur], rec.(seqNo := w.nextSeq))],
    nextSeq := Inc64(w.nextSeq))
  }

  ghost function SyncLog(w: Log): (r: Log)
    requires HasCurrent(w)
    ensures HasCurrent(r)
  {
    CurrentExists(w);
    assert Current(w) in w.segs[Current(w) := FlushSeg(w.segs[Current(w)])];
    w.(segs := w.segs[Current(w) := FlushSeg(w.segs[Current(w)])])
  }

  function SetReplayStartLog(w: Log, from: U64): Log {
    var next := if from > w.nextReplay then from else w.nextReplay;
    w.(nextReplay := next, checkpoint := Some(next))
  }

  /** The segments holding something at or above `low`. */
  function Above(segs: map<nat, Seg>, low: nat): map<nat, Seg> {
    map i | i in segs && segs[i].last >= low :: segs[i]
  }

  /** Above, while the keys in `rest` are still to be looked at. */
  function AboveOrIn(segs: map<nat, Seg>, low: nat, rest: set<nat>): map<nat, Seg> {
    map i | i in segs && (i in rest || segs[i].last >= low) :: segs[i]
  }

  lemma AboveOrInLess(segs: map<nat, Seg>, low: nat, rest: set<nat>, idx: nat)
    requires idx in rest && idx in segs
    ensures AboveOrIn(segs, low, rest - {idx})
         == if segs[idx].last < low then AboveOrIn(segs, low, rest) - {idx} else AboveOrIn(segs, low, rest)
  {
  }

  /** With no segment left, a first one is created. */
  function OrFresh(crc: Checksum, segs: map<nat, Seg>): (r: map<nat, Seg>)
    ensures r != map[]
  {
    assert 1 in map[1 := OpenSeg(crc, [])];
    if segs == map[] then map[1 := OpenSeg(crc, [])] else segs
  }

  function TruncateBeforeLog(crc: Checksum, w: Log, low: U64): Log {
    w.(segs := OrFresh(crc, Above(w.segs, low)))
  }

  /** What `TruncateTo` rewrites a file to: the records found in it above `upTo`. */
  function Rewritten(crc: Checksum, file: seq<Byte>, upTo: U64): seq<Byte> {
    EncodeAll(crc, Scan(crc, file, Inc64(upTo)))
  }

  ghost function TruncateToLog(crc: Checksum, w: Log, upTo: U64): (r: Log)
    ensures HasCurrent(r)
  {
    assert 1 in OrFresh(crc, map[]);
    var kept := w.(segs := Above(w.segs, upTo + 1));
    if HasCurrent(kept) then
      CurrentExists(kept);
      var cur := Current(kept);
      assert cur in kept.segs[cur := OpenSeg(crc, Rewritten(crc, kept.segs[cur].file, upTo))];
      kept.(segs := kept.segs[cur := OpenSeg(crc, Rewritten(crc, kept.segs[cur].file, upTo))])
    else
      kept.(segs := OrFresh(crc, map[]))
  }

  /** What `Replay` finds in the segments with index below n, in index order. */
  function ReplayUpTo(crc: Checksum, segs: map<nat, Seg>, n: nat, from: nat): seq<Record> {
    if n == 0 then []
    else
      ReplayUpTo(crc, segs, n - 1, from)
      + (if n - 1 in segs && segs[n - 1].last >= from then Scan(crc, segs[n - 1].file, from) else [])
  }

  ghost function ReplayLog(crc: Checksum, w: Log, from: nat): seq<Record> {
    ReplayUpTo(crc, w.segs, Current(w) + 1, from)
  }

  function OpenAll(crc: Checksum, files: map<nat, seq<Byte>>): map<nat, Seg> {
    map i | i in files :: OpenSeg(crc, files[i])
  }

  /** The next sequence number after loading the segments with index below n. */
  function NextSeqUpTo(segs: map<nat, Seg>, n: nat): U64 {
    if n == 0 then 0
    else
      var before := NextSeqUpTo(segs, n - 1);
      if n - 1 in segs && segs[n - 1].last >= before then Inc64(segs[n - 1].last) else before
  }

  /** `Open`: the log a directory with these segment files and this checkpoint opens to. */
  ghost function OpenLog(crc: Checksum, files: map<nat, seq<Byte>>, checkpoint: Option<U64>, maxSize: int): Log {
    var segs := OpenAll(crc, files);
    Log(OrFresh(crc, segs),
        NextSeqUpTo(segs, MaxIndex(segs.Keys) + 1),
        if checkpoint.Some? then checkpoint.value else 0,
        maxSize, checkpoint)
  }

  /** What a crash leaves on disk. */
  function FilesOf(w: Log): map<nat, seq<Byte>> {
    map i | i in w.segs :: w.segs[i].file
  }

  /** Reopening after a crash at this point. */
  ghost function Reopen(crc: Checksum, w: Log): Log {
    OpenLog(crc, FilesOf(w), w.checkpoint, w.maxSize)
  }

  lemma {:induction false} ReplayGap(crc: Checksum, segs: map<nat, Seg>, a: nat, b: nat, from: nat)
    requires a <= b && forall i :: a <= i < b ==> i !in segs
    ensures ReplayUpTo(crc, segs, b, from) == ReplayUpTo(crc, segs, a, from)
  {
    if a < b {
      ReplayGap(crc, segs, a, b - 1, from);
    }
  }

  lemma {:induction false} NextSeqGap(segs: map<nat, Seg>, a: nat, b: nat)
    requires a <= b && forall i :: a <= i < b ==> i !in segs
    ensures NextSeqUpTo(segs, b) == NextSeqUpTo(segs, a)
  {
    if a < b {
      NextSeqGap(segs, a, b - 1);
    }
  }

  // ----- the log in place -----

  /** Keys in ascending order. */
  ghost predicate Enumerates(indices: seq<nat>, keys: set<nat>) {
    && (forall i, j :: 0 <= i < j < |indices| ==> indices[i] < indices[j])
    && (forall k :: k in keys <==> k in indices)
  }

  lemma EnumeratesMore(indices: seq<nat>, keys: set<nat>, k: nat)
    requires Enumerates(indices, keys) && forall j :: j in keys ==> j < k
    ensures Enumerates(indices + [k], keys + {k})
  {
    assert forall i :: 0 <= i < |indices| ==> indices[i] in indices;
  }

  lemma EnumeratesNone()
    ensures Enumerates([], {})
  {
  }

  method SortedIndices(keys: set<nat>) returns (indices: seq<nat>)
    ensures Enumerates(indices, keys)
  {
    hide Enumerates;
    indices := [];
    var done, rest := {}, keys;
    EnumeratesNone();
    while rest != {}
      invariant done <= keys && rest <= keys
      invariant forall j :: j in keys ==> j in done || j in rest
      invariant Enumerates(indices, done)
      invariant forall j, k :: j in done && k in rest ==> j < k
      decreases |rest|
    {
      var least := Least(rest);
      EnumeratesMore(indices, done, least);
      indices := indices + [least];
      done, rest := done + {least}, rest - {least};
    }
    assert done == keys;
  }

  method Least(keys: set<nat>) returns (m: nat)
    requires keys != {}
    ensures m in keys && forall k :: k in keys ==> m <= k
  {
    m :| m in keys;
    var rest := keys - {m};
    while rest != {}
      invariant rest <= keys && m in keys
      invariant forall k :: k in keys && k !in rest ==> m <= k
      decreases |rest|
    {
      var k :| k in rest;
      if k < m { m := k; }
      rest := rest - {k};
    }
  }

  class WAL {
    const crc: Checksum
    const maxSize: int
    var segments: map<nat, Segment>
    var nextSeq: U64
    var nextReplay: U64
    var checkpoint: Option<U64>

    ghost function Repr(): (r: set<object>)
      reads this`segments
      ensures this in r
    {
      {this} + segments.Values
    }

    ghost predicate Distinct()
      reads this`segments
    {
      forall i, j :: i in segments && j in segments && i != j ==> segments[i] != segments[j]
    }

    ghost predicate Valid()
      reads this`segments
    {
      segments != map[] && Distinct()
    }

    ghost function Segs(): map<nat, Seg>
      reads this`segments, segments.Values
    {
      map i | i in segments :: segments[i].View()
    }

    /** The segment objects are distinct and look like `m`. */
    ghost predicate Shows(m: map<nat, Seg>)
      reads this`segments, segments.Values
    {
      && Distinct()
      && segments.Keys == m.Keys
      && forall i :: i in segments ==> segments[i].View() == m[i]
    }

    lemma ShowsIs(m: map<nat, Seg>)
      requires Shows(m)
      ensures Segs() == m && Distinct()
    {
    }

    lemma ShowsNothing()
      requires segments == map[]
      ensures Shows(map[])
    {
    }

    ghost function View(): (w: Log)
      reads this, Repr()
      ensures Valid() ==> HasCurrent(w)
    {
      assert forall i :: i in segments ==> i in Segs();
      Log(Segs(), nextSeq, nextReplay, maxSize, checkpoint)
    }

    lemma NextInView()
      ensures View().nextSeq == nextSeq && View().nextReplay == nextReplay
    {
    }

    /** `Open`, on a directory holding `files` and possibly a checkpoint. */
    constructor Open(crc: Checksum, files: map<nat, seq<Byte>>, checkpoint: Option<U64>, maxSize: int)
      ensures Valid() && fresh(Repr())
      ensures this.crc == crc
      ensures View() == OpenLog(crc, files, checkpoint, maxSize)
    {
      hide OpenSeg, NextSeqUpTo, Segs, OpenAll, Shows;
      this.crc, this.maxSize, this.checkpoint := crc, maxSize, checkpoint;
      segments, nextSeq := map[], 0;
      nextReplay := if checkpoint.Some? then checkpoint.value else 0;
      new;
      LoadSegments(files);
      ShowsIs(OpenAll(crc, files));
      if segments == map[] {
        ShowsIsNothing(OpenAll(crc, files));
        Rotate(map[]);
        ShowsIs(map[1 := OpenSeg(crc, [])]);
      } else {
        ShowsSome(OpenAll(crc, files));
      }
    }

    lemma ShowsIsNothing(m: map<nat, Seg>)
      requires Shows(m) && segments == map[]
      ensures m == map[]
    {
      assert m.Keys == {};
    }

    lemma ShowsSome(m: map<nat, Seg>)
      requires Shows(m) && segments != map[]
      ensures m != map[]
    {
      var i :| i in segments;
    }

    /** `loadSegments`: opens every segment file, in name order. */
    method LoadSegments(files: map<nat, seq<Byte>>)
      requires segments == map[] && nextSeq == 0
      modifies this
      ensures Shows(OpenAll(crc, files)) && fresh(segments.Values)
      ensures nextSeq == NextSeqUpTo(OpenAll(crc, files), MaxIndex(OpenAll(crc, files).Keys) + 1)
      ensures nextReplay == old(nextReplay) && checkpoint == old(checkpoint)
    {
      hide OpenSeg, Shows, NextSeqUpTo, Enumerates, Below;
      var indices := SortedIndices(files.Keys);
      ghost var all := OpenAll(crc, files);
      assert all.Keys == files.Keys;
      ghost var upTo := 0;
      ShowsNothing();
      LoadStart(all);
      for n := 0 to |indices|
        invariant Shows(Below(all, upTo)) && fresh(segments.Values)
        invariant upTo == if n == 0 then 0 else indices[n - 1] + 1
        invariant nextSeq == NextSeqUpTo(all, upTo)
        invariant nextReplay == old(nextReplay) && checkpoint == old(checkpoint)
      {
        LoadStep(all, indices, n, upTo);
        LoadOne(indices[n], files[indices[n]], Below(all, upTo));
        upTo := indices[n] + 1;
      }
      LoadEnd(all, indices);
    }

    method LoadOne(idx: nat, file: seq<Byte>, ghost m: map<nat, Seg>)
      requires Shows(m) && idx !in m
      modifies this
      ensures Shows(m[idx := OpenSeg(crc, file)])
      ensures fresh(segments.Values - old(segments.Values))
      ensures nextSeq == if OpenSeg(crc, file).last >= old(nextSeq) then Inc64(OpenSeg(crc, file).last)
                         else old(nextSeq)
      ensures nextReplay == old(nextReplay) && checkpoint == old(checkpoint)
    {
      hide OpenSeg;
      var seg := new Segment.Open(crc, file);
      segments := segments[idx := seg];
      if seg.last >= nextSeq {
        nextSeq := Inc64(seg.last);
      }
      assert seg.View().last == seg.last;
    }

    /** `rotate`: opens an empty segment one past the highest index. */
    method Rotate(ghost m: map<nat, Seg>)
      requires Shows(m)
      modifies this
      ensures Shows(m[MaxIndex(m.Keys) + 1 := OpenSeg(crc, [])]) && segments != map[]
      ensures fresh(segments.Values - old(segments.Values))
      ensures nextSeq == old(nextSeq) && nextReplay == old(nextReplay) && checkpoint == old(checkpoint)
    {
      hide OpenSeg;
      var idx := CurrentIndex();
      var seg := new Segment.Open(crc, []);
      assert idx + 1 !in segments;
      segments := segments[idx + 1 := seg];
      assert idx + 1 in segments;
    }

    method CurrentIndex() returns (idx: nat)
      ensures idx == MaxIndex(segments.Keys)
    {
      idx := 0;
      var rest := segments.Keys;
      while rest != {}
        invariant rest <= segments.Keys
        invariant idx == 0 || idx in segments.Keys
        invariant forall k :: k in segments.Keys && k !in rest ==> k <= idx
        decreases |rest|
      {
        var i :| i in rest;
        if i > idx { idx := i; }
        rest := rest - {i};
      }
      MaxIndexIs(segments.Keys, idx);
    }

    method CurrentSegment() returns (idx: nat)
      requires Valid()
      ensures idx in segments && idx == Current(View())
      ensures segments[idx].View() == View().segs[idx]
    {
      idx := CurrentIndex();
      assert View().segs.Keys == segments.Keys;
      CurrentExists(View());
    }

    method FlushAt(idx: nat, ghost m: map<nat, Seg>)
      requires Shows(m) && idx in segments
      modifies segments[idx]
      ensures Shows(m[idx := FlushSeg(m[idx])])
    {
      hide FlushSeg;
      segments[idx].Flush();
    }

    method WriteAt(idx: nat, rec: Record, ghost m: map<nat, Seg>)
      requires Shows(m) && idx in segments
      modifies segments[idx]
      ensures Shows(m[idx := WriteSeg(crc, m[idx], rec)])
    {
      hide WriteSeg;
      segments[idx].Write(crc, rec);
    }

    method ReplaceAt(idx: nat, file: seq<Byte>, ghost m: map<nat, Seg>)
      requires Shows(m) && idx in segments
      modifies this`segments
      ensures Shows(m[idx := OpenSeg(crc, file)])
      ensures fresh(segments.Values - old(segments.Values))
    {
      hide OpenSeg;
      var seg := new Segment.Open(crc, file);
      segments := segments[idx := seg];
    }

    method DropOne(idx: nat, low: nat, ghost m: map<nat, Seg>)
      requires Shows(m) && idx in segments
      modifies this`segments, segments[idx]
      ensures segments == if m[idx].last < low then old(segments) - {idx} else old(segments)
      ensures Shows(if m[idx].last < low then m - {idx} else m)
    {
      hide FlushSeg;
      assert segments[idx].View().last == segments[idx].last;
      if segments[idx].last < low {
        FlushAt(idx, m);
        segments := segments - {idx};
      }
    }

    /** Deletes every segment whose last sequence number is below `low`. */
    method DropBelow(low: nat, ghost m: map<nat, Seg>)
      requires Shows(m)
      modifies this`segments, segments.Values
      ensures Shows(Above(m, low))
      ensures segments.Values <= old(segments.Values)
    {
      hide Shows;
      ShowsIs(m);
      var rest := segments.Keys;
      assert m.Keys == rest;
      assert AboveOrIn(m, low, rest) == m;
      while rest != {}
        invariant rest <= segments.Keys && rest <= m.Keys
        invariant forall i :: i in segments ==> i in old(segments) && segments[i] == old(segments)[i]
        invariant Shows(AboveOrIn(m, low, rest))
        decreases |rest|
      {
        var idx :| idx in rest;
        DropOne(idx, low, AboveOrIn(m, low, rest));
        AboveOrInLess(m, low, rest, idx);
        rest := rest - {idx};
      }
      assert AboveOrIn(m, low, {}) == Above(m, low);
    }

    /** `Sync`. */
    method Sync()
      requires Valid()
      modifies Repr()
      ensures Valid() && Repr() == old(Repr())
      ensures View() == SyncLog(old(View()))
    {
      hide FlushSeg, Shows, MaxIndex;
      ghost var m := Segs();
      ShowsSegs();
      var idx := CurrentSegment();
      FlushAt(idx, m);
      ShowsIs(m[idx := FlushSeg(m[idx])]);
    }

    /** `rotateLocked`: flushes the current segment and opens the next one. */
    method RotateLocked()
      requires Valid()
      modifies Repr()
      ensures Valid() && (forall o :: o in Repr() ==> o in old(Repr()) || fresh(o))
      ensures View() == RotateLog(crc, SyncLog(old(View())))
    {
      hide OpenSeg, Shows, MaxIndex, SyncLog, Segs;
      Sync();
      ghost var m := Segs();
      ShowsSegs();
      Rotate(m);
      ShowsIs(m[MaxIndex(m.Keys) + 1 := OpenSeg(crc, [])]);
    }

    /** Rotates when the current segment is full. */
    method MakeRoom()
      requires Valid()
      modifies Repr()
      ensures Valid() && (forall o :: o in Repr() ==> o in old(Repr()) || fresh(o))
      ensures View() == MakeRoomLog(crc, old(View()))
      ensures nextSeq == old(nextSeq)
    {
      hide OpenSeg, FlushSeg, MaxIndex, RotateLog;
      var idx := CurrentSegment();
      assert segments[idx].View().size == segments[idx].size;
      if segments[idx].size >= maxSize {
        RotateLocked();
      }
      assert View().nextSeq == nextSeq;
    }

    /** `Append`. */
    method Append(rec: Record) returns (seqNo: U64)
      requires Valid()
      modifies Repr()
      ensures Valid() && (forall o :: o in Repr() ==> o in old(Repr()) || fresh(o))
      ensures View() == AppendLog(crc, old(View()), rec)
      ensures seqNo == old(nextSeq)
    {
      hide OpenSeg, WriteSeg, Shows, MaxIndex, MakeRoomLog, Segs;
      seqNo := nextSeq;
      MakeRoom();
      assert nextSeq == seqNo;
      ghost var m := Segs();
      ShowsSegs();
      var idx := CurrentSegment();
      WriteAt(idx, rec.(seqNo := seqNo), m);
      ShowsIs(m[idx := WriteSeg(crc, m[idx], rec.(seqNo := seqNo))]);
      nextSeq := Inc64(nextSeq);
    }

    /** `SetReplayStart`: raises the watermark, never lowers it, and always persists it. */
    method SetReplayStart(from: U64)
      requires Valid()
      modifies this
      ensures Valid() && Repr() == old(Repr())
      ensures View() == SetReplayStartLog(old(View()), from)
    {
      if from > nextReplay {
        nextReplay := from;
      }
      checkpoint := Some(nextReplay);
    }

    /** `TruncateBefore`. */
    method TruncateBefore(low: U64)
      requires Valid()
      modifies Repr()
      ensures Valid() && (forall o :: o in Repr() ==> o in old(Repr()) || fresh(o))
      ensures View() == TruncateBeforeLog(crc, old(View()), low)
    {
      hide OpenSeg, Shows, MaxIndex;
      ghost var m := Segs();
      ShowsSegs();
      DropBelow(low, m);
      CreateIfNone(Above(m, low));
    }

    method CreateIfNone(ghost m: map<nat, Seg>)
      requires Shows(m)
      modifies this
      ensures Valid() && Segs() == OrFresh(crc, m)
      ensures fresh(segments.Values - old(segments.Values))
      ensures nextSeq == old(nextSeq) && nextReplay == old(nextReplay) && checkpoint == old(checkpoint)
    {
      hide OpenSeg, Shows;
      if segments == map[] {
        ShowsIsNothing(m);
        Rotate(map[]);
        ShowsIs(map[1 := OpenSeg(crc, [])]);
      } else {
        ShowsSome(m);
        ShowsIs(m);
      }
    }

    /** `TruncateTo`: deletes whole segments, then rewrites the current one from its file. */
    method TruncateTo(upTo: U64)
      requires Valid()
      modifies Repr()
      ensures Valid() && (forall o :: o in Repr() ==> o in old(Repr()) || fresh(o))
      ensures View() == TruncateToLog(crc, old(View()), upTo)
    {
      hide OpenSeg, Shows, MaxIndex, Rewritten, OrFresh, Segs;
      ghost var m := Segs();
      ShowsSegs();
      DropBelow(upTo + 1, m);
      m := Above(m, upTo + 1);
      if segments == map[] {
        ShowsIsNothing(m);
        CreateIfNone(m);
      } else {
        ShowsSome(m);
        ShowsIs(m);
        RewriteCurrent(upTo);
      }
    }

    method RewriteCurrent(upTo: U64)
      requires Valid()
      modifies this`segments, segments.Values
      ensures Valid() && fresh(segments.Values - old(segments.Values))
      ensures Segs() == (var m := old(Segs());
                         var cur := MaxIndex(m.Keys);
                         assert HasCurrent(old(View()));
                         CurrentExists(old(View()));
                         m[cur := OpenSeg(crc, Rewritten(crc, m[cur].file, upTo))])
    {
      hide OpenSeg, FlushSeg, Shows, MaxIndex, Scan, EncodeAll;
      ghost var m := Segs();
      ShowsSegs();
      var idx := CurrentSegment();
      var keep := ScanRecords(crc, segments[idx].file, Inc64(upTo));
      assert segments[idx].View().file == segments[idx].file;
      var bytes := EncodeRecords(crc, keep);
      FlushAt(idx, m);
      ReplaceAt(idx, bytes, m[idx := FlushSeg(m[idx])]);
      assert m[idx := FlushSeg(m[idx])][idx := OpenSeg(crc, bytes)] == m[idx := OpenSeg(crc, bytes)];
      ShowsIs(m[idx := OpenSeg(crc, bytes)]);
    }

    /** `Replay`, with the callback's effect collected in `out`. */
    method Replay(from: U64) returns (out: seq<Record>)
      requires Valid()
      ensures out == ReplayLog(crc, View(), from)
    {
      hide Scan, ReplayUpTo, Enumerates;
      var indices := SortedIndices(segments.Keys);
      ghost var m := Segs();
      assert m.Keys == segments.Keys;
      ghost var upTo := 0;
      out := [];
      ReplayStart(crc, m, from);
      for n := 0 to |indices|
        invariant upTo == if n == 0 then 0 else indices[n - 1] + 1
        invariant out == ReplayUpTo(crc, m, upTo, from)
      {
        ReplayStep(crc, m, indices, n, upTo, from);
        var seg := segments[indices[n]];
        assert seg.View() == m[indices[n]];
        if seg.last >= from {
          var found := ScanRecords(crc, seg.file, from);
          out := out + found;
        }
        upTo := indices[n] + 1;
      }
      ReplayEnd(crc, m, indices, from);
    }

    lemma ShowsSegs()
      requires Distinct()
      ensures Shows(Segs())
    {
    }
  }

  function Below(segs: map<nat, Seg>, n: nat): map<nat, Seg> {
    map i | i in segs && i < n :: segs[i]
  }

  lemma LoadStart(segs: map<nat, Seg>)
    ensures Below(segs, 0) == map[] && NextSeqUpTo(segs, 0) == 0
  {
  }

  lemma LoadStep(segs: map<nat, Seg>, indices: seq<nat>, n: nat, upTo: nat)
    requires Enumerates(indices, segs.Keys) && n < |indices|
    requires upTo == if n == 0 then 0 else indices[n - 1] + 1
    ensures indices[n] in segs && indices[n] !in Below(segs, upTo)
    ensures Below(segs, indices[n] + 1) == Below(segs, upTo)[indices[n] := segs[indices[n]]]
    ensures var before := NextSeqUpTo(segs, upTo);
            NextSeqUpTo(segs, indices[n] + 1)
            == if segs[indices[n]].last >= before then Inc64(segs[indices[n]].last) else before
  {
    NoneBetween(indices, segs.Keys, n, upTo);
    NextSeqGap(segs, upTo, indices[n]);
  }

  lemma LoadEnd(segs: map<nat, Seg>, indices: seq<nat>)
    requires Enumerates(indices, segs.Keys)
    ensures var upTo := if indices == [] then 0 else indices[|indices| - 1] + 1;
            Below(segs, upTo) == segs && NextSeqUpTo(segs, MaxIndex(segs.Keys) + 1) == NextSeqUpTo(segs, upTo)
  {
    if indices == [] {
      NextSeqGap(segs, 0, MaxIndex(segs.Keys) + 1);
    } else {
      MaxIndexIs(segs.Keys, indices[|indices| - 1]);
    }
  }

  lemma ReplayStart(crc: Checksum, segs: map<nat, Seg>, from: nat)
    ensures ReplayUpTo(crc, segs, 0, from) == []
  {
  }

  lemma ReplayStep(crc: Checksum, segs: map<nat, Seg>, indices: seq<nat>, n: nat, upTo: nat, from: nat)
    requires Enumerates(indices, segs.Keys) && n < |indices|
    requires upTo == if n == 0 then 0 else indices[n - 1] + 1
    ensures indices[n] in segs
    ensures ReplayUpTo(crc, segs, indices[n] + 1, from)
         == ReplayUpTo(crc, segs, upTo, from)
            + (if segs[indices[n]].last >= from then Scan(crc, segs[indices[n]].file, from) else [])
  {
    hide Scan;
    NoneBetween(indices, segs.Keys, n, upTo);
    ReplayGap(crc, segs, upTo, indices[n], from);
  }

  lemma ReplayEnd(crc: Checksum, segs: map<nat, Seg>, indices: seq<nat>, from: nat)
    requires Enumerates(indices, segs.Keys)
    ensures ReplayUpTo(crc, segs, MaxIndex(segs.Keys) + 1, from)
         == ReplayUpTo(crc, segs, if indices == [] then 0 else indices[|indices| - 1] + 1, from)
  {
    hide Scan;
    if indices == [] {
      ReplayGap(crc, segs, 0, MaxIndex(segs.Keys) + 1, from);
    } else {
      MaxIndexIs(segs.Keys, indices[|indices| - 1]);
    }
  }

  /** The rewriting loop of `TruncateTo`. */
  method EncodeRecords(crc: Checksum, recs: seq<Record>) returns (bytes: seq<Byte>)
    ensures bytes == EncodeAll(crc, recs)
  {
    hide Encode;
    bytes := [];
    for i := 0 to |recs|
      invariant bytes == EncodeAll(crc, recs[..i])
    {
      var b := EncodeRecord(crc, recs[i]);
      EncodeAllConcat(crc, recs[..i], [recs[i]]);
      EncodeAllOne(crc, recs[i]);
      assert recs[..i + 1] == recs[..i] + [recs[i]];
      bytes := bytes + b;
    }
    assert recs[..|recs|] == recs;
  }

  lemma EncodeAllOne(crc: Checksum, rec: Record)
    ensures EncodeAll(crc, [rec]) == Encode(crc, rec)
  {
    hide Encode;
    assert [rec][1..] == [];
  }

  lemma NoneBetween(indices: seq<nat>, keys: set<nat>, n: nat, upTo: nat)
    requires Enumerates(indices, keys) && n < |indices|
    requires upTo == if n == 0 then 0 else indices[n - 1] + 1
    ensures upTo <= indices[n] && forall i :: upTo <= i < indices[n] ==> i !in keys
  {
    forall m | 0 <= m < |indices| ensures indices[m] < upTo || indices[n] <= indices[m] {
    }
  }
}
