/** Recovery: what replaying the log after a restart rebuilds. */
module Recovery {
  import opened Bytes
  import opened Model
  import opened Seqs
  import opened Memtable
  import opened Sharding
  import opened EngineState
  import opened EngineSteps
  import opened FlushLoss
  import opened WalRecord
  import opened Wal
  import opened WalProperties
  import opened WalRuns
  import opened IngestState
  import EngineRuns

  // ----- what a restart rebuilds -----

  /** The memtable that replaying from the watermark builds. */
  ghost function RecoveredMem(crc: Checksum, w: Log): Mem<U64> {
    MemWriteAll(EmptyMem(), PointsFrom(ReplayLog(crc, w, w.nextReplay)))
  }

  /** A sample logged since the memtable was last emptied, and whether `Route` accepted it. */
  datatype Logged = Logged(rec: Record, accepted: bool)

  function Recs(since: seq<Logged>): (recs: seq<Record>)
    ensures |recs| == |since|
  {
    seq(|since|, i requires 0 <= i < |since| => since[i].rec)
  }

  /** The records whose samples reached the memtable. */
  function Accepted(since: seq<Logged>): seq<Record> {
    if since == [] then []
    else
      var n := |since| - 1;
      Accepted(since[..n]) + (if since[n].accepted then [since[n].rec] else [])
  }

  ghost predicate CheckpointCurrent(w: Log) {
    w.checkpoint == Some(w.nextReplay) || (w.checkpoint == None && w.nextReplay == 0)
  }

  /** The memtable holds the accepted samples since it was last emptied, and from the watermark on
      the log holds the newline-clean ones, accepted or not. */
  ghost predicate Recoverable(crc: Checksum, s: Sys, since: seq<Logged>) {
    && Flows(s.core) && LogInvariant(crc, s.log)
    && CheckpointCurrent(s.log) && s.log.nextReplay <= s.log.nextSeq
    && s.core.mem == MemWriteAll(EmptyMem(), PointsFrom(Accepted(since)))
    && FromSeq(WrittenRecords(crc, s.log), s.log.nextReplay) == CleanOf(crc, Recs(since))
  }

  lemma RecoverableRuns(crc: Checksum, s: Sys, since: seq<Logged>)
    requires Recoverable(crc, s, since)
    ensures Running(s)
  {
    FlowShape(s.core);
  }

  lemma RecsSnoc(since: seq<Logged>, e: Logged)
    ensures Recs(since + [e]) == Recs(since) + [e.rec]
    ensures Accepted(since + [e]) == if e.accepted then Accepted(since) + [e.rec] else Accepted(since)
  {
    assert (since + [e])[..|since|] == since;
    assert Accepted(since) + [] == Accepted(since);
  }

  lemma PointsFromSnoc(recs: seq<Record>, r: Record)
    ensures PointsFrom(recs + [r]) == PointsFrom(recs) + [PointOf(r)]
  {
  }

  lemma MemWriteSnoc(m: Mem<U64>, ps: seq<Point<U64>>, p: Point<U64>)
    ensures MemWriteAll(m, ps + [p]) == MemWrite(MemWriteAll(m, ps), p)
  {
    assert (ps + [p])[..|ps|] == ps;
  }

  lemma {:induction false} PointsCount(m: Mem<U64>, ps: seq<Point<U64>>)
    ensures MemWriteAll(m, ps).points == m.points + |ps|
    decreases |ps|
  {
    if ps != [] { PointsCount(m, ps[..|ps| - 1]); }
  }

  // ----- restarting -----

  lemma {:induction false} NextSeqAbove(segs: map<nat, Seg>, n: nat)
    requires forall i :: i in segs ==> segs[i].last < MAX_U64
    ensures forall i :: i in segs && i < n ==> segs[i].last < NextSeqUpTo(segs, n)
    ensures NextSeqUpTo(segs, n) == 0 || exists i :: i in segs && i < n && NextSeqUpTo(segs, n) == segs[i].last + 1
  {
    if n > 0 {
      NextSeqAbove(segs, n - 1);
    }
  }

  lemma NextSeqAll(w: Log)
    requires HasCurrent(w) && forall i :: i in w.segs ==> w.segs[i].last < MAX_U64
    ensures forall i :: i in w.segs ==> w.segs[i].last < NextSeqUpTo(w.segs, Current(w) + 1)
    ensures exists i :: i in w.segs && NextSeqUpTo(w.segs, Current(w) + 1) == w.segs[i].last + 1
  {
    hide NextSeqUpTo;
    CurrentExists(w);
    NextSeqAbove(w.segs, Current(w) + 1);
  }

  /** Nothing buffered: everything written is on disk. */
  ghost predicate Synced(w: Log) {
    forall i :: i in w.segs ==> w.segs[i].buf == []
  }

  lemma SyncedAfterSync(crc: Checksum, w: Log)
    requires LogInvariant(crc, w)
    ensures Synced(SyncLog(w)) && LogInvariant(crc, SyncLog(w))
    ensures WrittenRecords(crc, SyncLog(w)) == WrittenRecords(crc, w)
    ensures SyncLog(w) == w.(segs := SyncLog(w).segs)
  {
    hide SegmentInvariant, WrittenRecords;
    CurrentExists(w);
    SyncFramed(crc, w);
  }

  lemma SyncedFiles(w: Log)
    requires Synced(w)
    ensures FilesOf(w) == WrittenOf(w)
  {
    forall i | i in w.segs ensures w.segs[i].Written() == w.segs[i].file {
      assert w.segs[i].file + [] == w.segs[i].file;
    }
  }

  lemma OpenedSegment(crc: Checksum, s: Seg, nextSeq: nat, later: nat)
    requires SegmentInvariant(crc, s, nextSeq) && s.buf == []
    requires OpenSeg(crc, s.file).last < later || OpenSeg(crc, s.file).last == 0
    requires forall r :: r in Records(crc, s.file) ==> r.seqNo < later
    ensures SegmentInvariant(crc, OpenSeg(crc, s.file), later)
  {
    hide Records, OpenSeg;
    var o := OpenSeg(crc, s.file);
    assert s.file + [] == s.file;
    OpenedWritten(crc, s.file);
    OpenedSize(crc, s.file);
    forall r | r in Records(crc, s.file) ensures r.seqNo <= o.last { OpenSegBound(crc, s.file, r); }
  }

  lemma OpenedWritten(crc: Checksum, file: seq<Byte>)
    ensures OpenSeg(crc, file).file == file && OpenSeg(crc, file).buf == []
    ensures OpenSeg(crc, file).Written() == file
    ensures OpenSeg(crc, file).last == LastOf(Records(crc, file))
  {
    hide Records;
  }

  /** Reopening a synced log: the segments are as they were, the watermark is the persisted one, and
      numbering resumes after the largest number found on disk. */
  lemma ReopenKeeps(crc: Checksum, w: Log)
    requires LogInvariant(crc, w) && Synced(w) && CheckpointCurrent(w) && w.nextSeq < MAX_U64
    ensures (var o := Reopen(crc, w);
             && LogInvariant(crc, o) && Synced(o) && CheckpointCurrent(o)
             && WrittenRecords(crc, o) == WrittenRecords(crc, w)
             && o.nextReplay == w.nextReplay && o.maxSize == w.maxSize
             && 1 <= o.nextSeq && o.nextSeq <= if w.nextSeq == 0 then 1 else w.nextSeq)
  {
    hide Records, OpenSeg, SegmentInvariant, WrittenRecords, NextSeqUpTo;
    var o := Reopen(crc, w);
    ReopenSegments(crc, w);
    ReopenNumbers(crc, w);
    SyncedFiles(w);
    SyncedFiles(o);
    SameFilesSameRecords(crc, o, w);
    forall i | i in o.segs ensures SegmentInvariant(crc, o.segs[i], o.nextSeq) {
      ReopenedBelow(crc, w, i);
      OpenedSegment(crc, w.segs[i], w.nextSeq, o.nextSeq);
    }
  }

  lemma SameFilesSameRecords(crc: Checksum, a: Log, b: Log)
    requires WrittenOf(a) == WrittenOf(b)
    ensures WrittenRecords(crc, a) == WrittenRecords(crc, b)
  {
  }

  lemma ReopenSegments(crc: Checksum, w: Log)
    requires HasCurrent(w)
    ensures (var o := Reopen(crc, w);
             && o.segs.Keys == w.segs.Keys && HasCurrent(o)
             && (forall i :: i in w.segs ==> o.segs[i] == OpenSeg(crc, w.segs[i].file))
             && Synced(o) && FilesOf(o) == FilesOf(w)
             && o.nextSeq == NextSeqUpTo(o.segs, Current(o) + 1))
  {
    hide Records, NextSeqUpTo;
    var o, files := Reopen(crc, w), FilesOf(w);
    assert OpenAll(crc, files).Keys == files.Keys == w.segs.Keys;
    CurrentExists(w);
    assert OpenAll(crc, files) != map[];
  }

  lemma ReopenedLast(crc: Checksum, w: Log, i: nat)
    requires LogInvariant(crc, w) && i in w.segs
    ensures OpenSeg(crc, w.segs[i].file).last < w.nextSeq || OpenSeg(crc, w.segs[i].file).last == 0
    ensures forall r :: r in Records(crc, w.segs[i].file) ==> r.seqNo <= OpenSeg(crc, w.segs[i].file).last
  {
    hide Records, OpenSeg;
    var s := w.segs[i];
    OpenedWritten(crc, s.file);
    FilePrefix(crc, s);
    assert SegmentInvariant(crc, s, w.nextSeq);
    forall r | r in Records(crc, s.file) ensures r.seqNo < w.nextSeq {
      PrefixMember(Records(crc, s.file), Records(crc, s.Written()), r);
    }
    LastOfWithin(Records(crc, s.file), if w.nextSeq > 0 then w.nextSeq - 1 else 0);
    forall r | r in Records(crc, s.file) ensures r.seqNo <= OpenSeg(crc, s.file).last { OpenSegBound(crc, s.file, r); }
  }

  lemma ReopenNumbers(crc: Checksum, w: Log)
    requires LogInvariant(crc, w) && w.nextSeq < MAX_U64
    ensures (var o := Reopen(crc, w);
             && (forall i :: i in o.segs ==> o.segs[i].last < o.nextSeq)
             && 1 <= o.nextSeq <= (if w.nextSeq == 0 then 1 else w.nextSeq)
             && exists i :: i in o.segs && o.nextSeq == o.segs[i].last + 1)
  {
    hide Records, OpenSeg, SegmentInvariant, NextSeqUpTo, MaxIndex, OpenLog, WrittenRecords;
    var o := Reopen(crc, w);
    ReopenSegments(crc, w);
    forall i | i in o.segs ensures o.segs[i].last < w.nextSeq || o.segs[i].last == 0 { ReopenedLast(crc, w, i); }
    NextSeqAll(o);
  }

  lemma ReopenedBelow(crc: Checksum, w: Log, i: nat)
    requires LogInvariant(crc, w) && Synced(w) && w.nextSeq < MAX_U64 && i in w.segs
    ensures OpenSeg(crc, w.segs[i].file).last < Reopen(crc, w).nextSeq
    ensures forall r :: r in Records(crc, w.segs[i].file) ==> r.seqNo < Reopen(crc, w).nextSeq
  {
    hide Records, OpenSeg, SegmentInvariant, Reopen;
    ReopenSegments(crc, w);
    ReopenNumbers(crc, w);
    ReopenedLast(crc, w, i);
  }

  // ----- what replay finds -----

  lemma WrittenBelow(crc: Checksum, w: Log, r: Record)
    requires LogInvariant(crc, w) && r in WrittenRecords(crc, w)
    ensures r.seqNo < w.nextSeq
  {
    hide Records, SegmentInvariant;
    DiskLogMember(crc, WrittenOf(w), r);
    var i :| i in WrittenOf(w) && r in Records(crc, WrittenOf(w)[i]);
    SegmentBelow(crc, w.segs[i], w.nextSeq, r);
  }

  lemma NothingFromNext(crc: Checksum, w: Log)
    requires LogInvariant(crc, w)
    ensures FromSeq(WrittenRecords(crc, w), w.nextSeq) == []
  {
    hide LogInvariant, WrittenRecords;
    forall r | r in WrittenRecords(crc, w) ensures !AtLeast(w.nextSeq)(r) { WrittenBelow(crc, w, r); }
    FilterNone(AtLeast(w.nextSeq), WrittenRecords(crc, w));
  }

  lemma SyncedReplay(crc: Checksum, w: Log, from: nat)
    requires LogInvariant(crc, w) && Synced(w)
    ensures ReplayLog(crc, w, from) == FromSeq(WrittenRecords(crc, w), from)
  {
    hide LogInvariant, FromSeq;
    ReplayAscends(crc, w, from);
    SyncedFiles(w);
  }

  /** A synced log, reopened and replayed from the persisted watermark, gives back exactly the
      newline-clean samples logged since the memtable was last emptied. */
  lemma RecoveredIs(crc: Checksum, s: Sys, since: seq<Logged>)
    requires Recoverable(crc, s, since) && Synced(s.log) && s.log.nextSeq < MAX_U64
    ensures RecoveredMem(crc, Reopen(crc, s.log)) == MemWriteAll(EmptyMem(), PointsFrom(CleanOf(crc, Recs(since))))
  {
    hide LogInvariant, Flows, FromSeq, WrittenRecords, Reopen, ReplayLog, Synced;
    ReopenKeeps(crc, s.log);
    SyncedReplay(crc, Reopen(crc, s.log), s.log.nextReplay);
  }

  lemma FilterPrefix(from: nat, a: seq<Record>, b: seq<Record>)
    requires a <= b
    ensures FromSeq(a, from) <= FromSeq(b, from)
  {
    assert b == a + b[|a|..];
    FilterConcat(AtLeast(from), a, b[|a|..]);
  }

  /** What replay finds after a crash is a prefix of what it would find after a sync. */
  lemma CrashReplay(crc: Checksum, w: Log)
    requires LogInvariant(crc, w) && CheckpointCurrent(w)
    ensures ReplayLog(crc, Reopen(crc, w), Reopen(crc, w).nextReplay) <= FromSeq(WrittenRecords(crc, w), w.nextReplay)
  {
    hide Framed, WrittenRecords, DiskLog, FromSeq, Reopen, ReplayLog, FilesOf;
    FramedCurrent(crc, w);
    CrashLeavesPrefix(crc, w);
    ReopenFiles(crc, w);
    ReopenWatermark(crc, w);
    ReopenBounds(crc, w);
    ReplayIsFilter(crc, Reopen(crc, w), w.nextReplay);
    FilterPrefix(w.nextReplay, DiskLog(crc, FilesOf(w)), WrittenRecords(crc, w));
  }

  lemma FramedCurrent(crc: Checksum, w: Log)
    requires Framed(crc, w)
    ensures HasCurrent(w) && OnlyCurrentBuffers(w)
  {
  }

  lemma ReopenFiles(crc: Checksum, w: Log)
    requires HasCurrent(w)
    ensures FilesOf(Reopen(crc, w)) == FilesOf(w)
  {
    hide Reopen;
    ReopenSegments(crc, w);
  }

  /** A crash at any moment, synced or not: a prefix of those samples comes back. */
  lemma CrashRecoversPrefix(crc: Checksum, s: Sys, since: seq<Logged>) returns (n: nat)
    requires Recoverable(crc, s, since)
    ensures n <= |CleanOf(crc, Recs(since))|
    ensures RecoveredMem(crc, Reopen(crc, s.log)) == MemWriteAll(EmptyMem(), PointsFrom(CleanOf(crc, Recs(since))[..n]))
  {
    hide Flows, LogInvariant, WrittenRecords, FromSeq, Reopen, ReplayLog, CleanOf, MemWriteAll;
    CrashReplay(crc, s.log);
    var found := ReplayLog(crc, Reopen(crc, s.log), Reopen(crc, s.log).nextReplay);
    n := |found|;
    assert found == CleanOf(crc, Recs(since))[..n];
  }

  lemma ReopenWatermark(crc: Checksum, w: Log)
    requires CheckpointCurrent(w)
    ensures Reopen(crc, w).nextReplay == w.nextReplay
  {
  }

  lemma ReopenBounds(crc: Checksum, w: Log)
    requires HasCurrent(w)
    ensures LastsBound(crc, Reopen(crc, w))
  {
    hide Records, OpenSeg, Reopen;
    ReopenSegments(crc, w);
    forall i, r | i in w.segs && r in Records(crc, Reopen(crc, w).segs[i].file)
      ensures r.seqNo <= Reopen(crc, w).segs[i].last
    {
      OpenedWritten(crc, w.segs[i].file);
      OpenSegBound(crc, w.segs[i].file, r);
    }
  }

  // ----- when recovery is exact -----

  lemma {:induction false} AcceptedCount(since: seq<Logged>)
    ensures |Accepted(since)| <= |since|
    ensures |Accepted(since)| == |since| <==> forall e :: e in since ==> e.accepted
    ensures |Accepted(since)| == |since| ==> Accepted(since) == Recs(since)
    decreases |since|
  {
    if since != [] {
      var n := |since| - 1;
      AcceptedCount(since[..n]);
      assert since == since[..n] + [since[n]];
      RecsSnoc(since[..n], since[n]);
    }
  }

  lemma {:induction false} CleanCount(crc: Checksum, recs: seq<Record>)
    ensures |CleanOf(crc, recs)| <= |recs|
    ensures |CleanOf(crc, recs)| == |recs| <==> forall r :: r in recs ==> Clean(crc, r)
    ensures |CleanOf(crc, recs)| == |recs| ==> CleanOf(crc, recs) == recs
    decreases |recs|
  {
    hide Clean;
    if recs != [] {
      var n := |recs| - 1;
      CleanCount(crc, recs[..n]);
      assert recs == recs[..n] + [recs[n]];
      FilterSnoc(IsClean(crc), recs[..n], recs[n]);
    }
  }

  lemma {:induction false} CleanIsAccepted(crc: Checksum, since: seq<Logged>)
    requires forall e :: e in since ==> (e.accepted <==> Clean(crc, e.rec))
    ensures CleanOf(crc, Recs(since)) == Accepted(since)
    decreases |since|
  {
    hide Clean;
    if since != [] {
      var n := |since| - 1;
      assert since == since[..n] + [since[n]];
      assert since[n] in since;
      CleanIsAccepted(crc, since[..n]);
      RecsSnoc(since[..n], since[n]);
      FilterSnoc(IsClean(crc), Recs(since[..n]), since[n].rec);
    }
  }

  /** Recovery is exact when the clean samples and the accepted ones are equally many and agree on
      the last value of every timestamp of every series, and only then. With all of them accepted
      that means all are clean: an unclean one is lost. With all of them clean it means all are
      accepted: a refused one comes back. */
  lemma RecoveryExact(crc: Checksum, s: Sys, since: seq<Logged>)
    requires Recoverable(crc, s, since) && Synced(s.log) && s.log.nextSeq < MAX_U64
    ensures RecoveredMem(crc, Reopen(crc, s.log)) == s.core.mem
       <==> SameLastWrites(PointsFrom(CleanOf(crc, Recs(since))), PointsFrom(Accepted(since)))
    ensures (forall e :: e in since ==> (e.accepted <==> Clean(crc, e.rec)))
            ==> RecoveredMem(crc, Reopen(crc, s.log)) == s.core.mem
    ensures (forall e :: e in since ==> e.accepted)
            ==> (RecoveredMem(crc, Reopen(crc, s.log)) == s.core.mem <==> forall e :: e in since ==> Clean(crc, e.rec))
    ensures (forall e :: e in since ==> Clean(crc, e.rec))
            ==> (RecoveredMem(crc, Reopen(crc, s.log)) == s.core.mem <==> forall e :: e in since ==> e.accepted)
  {
    hide LogInvariant, Flows, FromSeq, WrittenRecords, Reopen, RecoveredMem, Clean, Accepted, MemWriteAll,
      SameLastWrites;
    RecoveredIs(crc, s, since);
    SameTableIff(PointsFrom(CleanOf(crc, Recs(since))), PointsFrom(Accepted(since)));
    var recs, clean := Recs(since), CleanOf(crc, Recs(since));
    PointsCount(EmptyMem(), PointsFrom(clean));
    PointsCount(EmptyMem(), PointsFrom(Accepted(since)));
    AcceptedCount(since);
    CleanCount(crc, recs);
    assert forall e :: e in since ==> e.rec in recs by {
      forall e | e in since ensures e.rec in recs
      { var i :| 0 <= i < |since| && since[i] == e; assert recs[i] == e.rec; }
    }
    if forall e :: e in since ==> (e.accepted <==> Clean(crc, e.rec)) { CleanIsAccepted(crc, since); }
  }

  // ----- one step -----

  /** One call on the write path. OpOther is any other call, which leaves the memtable alone. */
  datatype IngestOp =
    | OpAppend(rec: Record, order: seq<nat>)
    | OpFlush(order: seq<nat>)
    | OpSync
    | OpOther(core: Core<U64>)

  ghost predicate Step(crc: Checksum, threshold: int, a: Sys, op: IngestOp, b: Sys)
    requires Running(a)
  {
    match op
    case OpAppend(rec, order) =>
      IsOrder(order, AppendCore(a.core, PointOf(rec)).mem.byID) && b == AppendSys(crc, a, rec, threshold, order).0
    case OpFlush(order) => IsOrder(order, a.core.mem.byID) && b == FlushSys(crc, a, order).0
    case OpSync => b == a.(log := SyncLog(a.log))
    case OpOther(core) => Flows(core) && core.mem == a.core.mem && b == a.(core := core)
  }

  ghost function LogSample(s: Sys, since: seq<Logged>, rec: Record): seq<Logged>
    requires Running(s)
  {
    since + [Logged(rec.(seqNo := s.log.nextSeq), Routable(s.core.shards, rec.ts))]
  }

  /** The samples logged since the memtable was last emptied, after one more step. */
  ghost function SinceAfter(threshold: int, a: Sys, op: IngestOp, since: seq<Logged>): seq<Logged>
    requires Running(a)
  {
    match op
    case OpAppend(rec, order) =>
      if Routable(a.core.shards, rec.ts) && a.core.mem.points + 1 >= threshold then [] else LogSample(a, since, rec)
    case OpFlush(order) => if a.core.mem.points == 0 || a.log.nextSeq == 0 then since else []
    case _ => since
  }

  lemma AppendedLog(crc: Checksum, w: Log, recs: seq<Record>, rec: Record)
    requires LogInvariant(crc, w) && w.nextSeq < MAX_U64 && w.nextReplay <= w.nextSeq
    requires FromSeq(WrittenRecords(crc, w), w.nextReplay) == CleanOf(crc, recs)
    ensures (var w', r := AppendLog(crc, w, rec), rec.(seqNo := w.nextSeq);
             && LogInvariant(crc, w') && w' == w.(segs := w'.segs, nextSeq := w.nextSeq + 1)
             && FromSeq(WrittenRecords(crc, w'), w'.nextReplay) == CleanOf(crc, recs + [r]))
  {
    hide LogInvariant, WrittenRecords, AppendLog, Clean, Filter;
    var r := rec.(seqNo := w.nextSeq);
    FramedLog(crc, w);
    AppendWrites(crc, w, rec);
    StepKeeps(crc, w, WalOp.OpAppend(rec));
    FilterOne(IsClean(crc), r);
    FilterOne(AtLeast(w.nextReplay), r);
    FilterNothing(AtLeast(w.nextReplay));
    FilterConcat(AtLeast(w.nextReplay), WrittenRecords(crc, w), CleanOf(crc, [r]));
    FilterConcat(IsClean(crc), recs, [r]);
  }

  /** `Append` up to the flush. */
  lemma AppendRecoverable(crc: Checksum, s: Sys, since: seq<Logged>, rec: Record)
    requires Recoverable(crc, s, since) && Running(s) && s.log.nextSeq < MAX_U64
    ensures Recoverable(crc, Sys(AppendCore(s.core, PointOf(rec)), AppendLog(crc, s.log, rec), s.lastFlushSeq),
                        LogSample(s, since, rec))
    ensures AppendCore(s.core, PointOf(rec)).mem.points
         == s.core.mem.points + (if Routable(s.core.shards, rec.ts) then 1 else 0)
    ensures AppendLog(crc, s.log, rec).nextSeq == s.log.nextSeq + 1
  {
    hide LogInvariant, Flows, FromSeq, WrittenRecords, AppendLog, Clean, Accepted, MemWriteAll, RouteShards,
      Upsert;
    var r := rec.(seqNo := s.log.nextSeq);
    AppendFlows(s.core, PointOf(rec));
    AppendedLog(crc, s.log, Recs(since), rec);
    RecsSnoc(since, Logged(r, Routable(s.core.shards, rec.ts)));
    if Routable(s.core.shards, rec.ts) {
      PointsFromSnoc(Accepted(since), r);
      MemWriteSnoc(EmptyMem(), PointsFrom(Accepted(since)), PointOf(rec));
    }
  }

  /** Truncating up to the last number leaves one fresh segment. */
  lemma TruncateAll(crc: Checksum, w: Log, upTo: U64)
    requires forall i :: i in w.segs ==> w.segs[i].last <= upTo
    ensures (var t := TruncateToLog(crc, w, upTo);
             && LogInvariant(crc, t) && WrittenRecords(crc, t) == [] && Synced(t)
             && t == w.(segs := OrFresh(crc, map[])))
  {
    hide Records, OpenSeg, WrittenRecords;
    assert Above(w.segs, upTo + 1) == map[];
    FreshInvariant(crc, TruncateToLog(crc, w, upTo));
    FreshHoldsNothing(crc);
  }

  lemma LastsBelow(crc: Checksum, w: Log)
    requires LogInvariant(crc, w)
    ensures forall i :: i in w.segs ==> w.segs[i].last < w.nextSeq || w.segs[i].last == 0
  {
    hide Records;
    forall i | i in w.segs ensures w.segs[i].last < w.nextSeq || w.segs[i].last == 0 {
      assert SegmentInvariant(crc, w.segs[i], w.nextSeq);
    }
  }

  /** A flush that finds something in the memtable succeeds, and leaves the log empty. */
  lemma FlushRecoverable(crc: Checksum, s: Sys, since: seq<Logged>, seqNo: U64, order: seq<nat>)
    requires Recoverable(crc, s, since) && Running(s) && s.core.mem.points > 0
    requires s.log.nextSeq == seqNo + 1 && IsOrder(order, s.core.mem.byID)
    ensures (var (f, ok) := FlushLockedSys(crc, s, seqNo, order);
             && ok && f.core == FlushPlain(s.core) && f.core.mem == EmptyMem()
             && Recoverable(crc, f, []) && Synced(f.log) && WrittenRecords(crc, f.log) == []
             && f.log.nextReplay == f.log.nextSeq == s.log.nextSeq && f.lastFlushSeq == seqNo)
  {
    hide LogInvariant, Flows, FromSeq, WrittenRecords, TruncateToLog, FlushCore, FlushPlain, Clean, Synced,
      OrFresh;
    FlushFlows(s.core, order);
    EngineRuns.FlushPlainWindow(s.core);
    var w := SetReplayStartLog(s.log, Inc64(seqNo));
    SameSegments(crc, s.log, w);
    LastsBelow(crc, w);
    TruncateAll(crc, w, seqNo);
    NothingFromNext(crc, TruncateToLog(crc, w, seqNo));
    NothingSince(crc);
  }

  lemma NothingSince(crc: Checksum)
    ensures Recs([]) == [] && Accepted([]) == [] && CleanOf(crc, []) == []
    ensures MemWriteAll(EmptyMem(), PointsFrom([])) == EmptyMem()
  {
    hide Clean;
  }

  lemma SyncRecoverable(crc: Checksum, s: Sys, since: seq<Logged>)
    requires Recoverable(crc, s, since) && Running(s)
    ensures Recoverable(crc, s.(log := SyncLog(s.log)), since) && Synced(SyncLog(s.log))
    ensures SyncLog(s.log).nextSeq == s.log.nextSeq
  {
    hide LogInvariant, Flows, FromSeq, WrittenRecords, SyncLog, Accepted, MemWriteAll, Clean;
    SyncedAfterSync(crc, s.log);
  }

  lemma StepRecoverable(crc: Checksum, threshold: int, a: Sys, op: IngestOp, b: Sys, since: seq<Logged>)
    requires Recoverable(crc, a, since) && Running(a) && a.log.nextSeq < MAX_U64
    requires Step(crc, threshold, a, op, b)
    ensures Recoverable(crc, b, SinceAfter(threshold, a, op, since))
    ensures b.log.nextSeq <= a.log.nextSeq + 1
    ensures op.OpSync? ==> Synced(b.log)
  {
    hide Recoverable, Flows, FlushLockedSys, AppendCore, AppendLog, SyncLog, Synced, LogSample;
    match op {
      case OpAppend(rec, order) =>
        AppendRecoverable(crc, a, since, rec);
        AppendStep(crc, threshold, a, op, b, since);
      case OpFlush(order) =>
        if a.core.mem.points > 0 && a.log.nextSeq > 0 {
          FlushRecoverable(crc, a, since, a.log.nextSeq - 1, order);
        } else {
          FlushNothingSys(crc, a, order);
        }
      case OpSync => SyncRecoverable(crc, a, since);
      case OpOther(core) => OtherRecoverable(crc, a, since, core);
    }
  }

  lemma FlushNothingSys(crc: Checksum, s: Sys, order: seq<nat>)
    requires Running(s) && (s.core.mem.points == 0 || s.log.nextSeq == 0)
    ensures FlushSys(crc, s, order) == (s, true)
  {
  }

  lemma OtherRecoverable(crc: Checksum, s: Sys, since: seq<Logged>, core: Core<U64>)
    requires Recoverable(crc, s, since) && Flows(core) && core.mem == s.core.mem
    ensures Recoverable(crc, s.(core := core), since)
  {
    hide LogInvariant, Flows, FromSeq, WrittenRecords, Accepted, MemWriteAll, Clean;
  }

  lemma AppendStep(crc: Checksum, threshold: int, a: Sys, op: IngestOp, b: Sys, since: seq<Logged>)
    requires op.OpAppend? && Recoverable(crc, a, since) && Running(a) && a.log.nextSeq < MAX_U64
    requires Step(crc, threshold, a, op, b)
    ensures Recoverable(crc, b, SinceAfter(threshold, a, op, since))
    ensures b.log.nextSeq == a.log.nextSeq + 1
  {
    hide Recoverable, Flows, FlushLockedSys, AppendLog, LogSample, MemWrite, RouteShards;
    var rec, order := op.rec, op.order;
    var written := Sys(AppendCore(a.core, PointOf(rec)), AppendLog(crc, a.log, rec), a.lastFlushSeq);
    AppendRecoverable(crc, a, since, rec);
    RecoverableRuns(crc, written, LogSample(a, since, rec));
    if Routable(a.core.shards, rec.ts) && a.core.mem.points + 1 >= threshold {
      FlushRecoverable(crc, written, LogSample(a, since, rec), a.log.nextSeq, order);
    }
  }

  // ----- runs -----

  ghost predicate IsIngestRun(crc: Checksum, threshold: int, states: seq<Sys>, ops: seq<IngestOp>) {
    && |states| == |ops| + 1
    && forall i :: 0 <= i < |ops| ==> Running(states[i]) && Step(crc, threshold, states[i], ops[i], states[i + 1])
  }

  ghost function SinceRun(threshold: int, states: seq<Sys>, ops: seq<IngestOp>, since: seq<Logged>, i: nat): seq<Logged>
    requires i <= |ops| <= |states| && forall j :: 0 <= j < |ops| ==> Running(states[j])
  {
    if i == 0 then since
    else SinceAfter(threshold, states[i - 1], ops[i - 1], SinceRun(threshold, states, ops, since, i - 1))
  }

  /** Every run of the write path keeps the log and the memtable in step. */
  lemma {:induction false} RunRecoverable(crc: Checksum, threshold: int, states: seq<Sys>, ops: seq<IngestOp>,
                                          since: seq<Logged>, i: nat)
    requires IsIngestRun(crc, threshold, states, ops) && i <= |ops|
    requires Recoverable(crc, states[0], since) && states[0].log.nextSeq + i < MAX_U64
    ensures Recoverable(crc, states[i], SinceRun(threshold, states, ops, since, i))
    ensures states[i].log.nextSeq <= states[0].log.nextSeq + i
    ensures i > 0 && ops[i - 1].OpSync? ==> Synced(states[i].log)
    decreases i
  {
    hide Recoverable, Step, SinceAfter, Synced;
    if i > 0 {
      RunRecoverable(crc, threshold, states, ops, since, i - 1);
      StepRecoverable(crc, threshold, states[i - 1], ops[i - 1], states[i],
                      SinceRun(threshold, states, ops, since, i - 1));
    }
  }

  /** A new engine on an empty directory. */
  ghost function NewSys(crc: Checksum, window: int, now: int, maxSize: int): Sys
    requires window > 0
  {
    Sys(NewCore(window, now), OpenLog(crc, map[], None, maxSize), 0)
  }

  lemma NewRecoverable(crc: Checksum, window: int, now: int, maxSize: int)
    requires window > 0
    ensures Recoverable(crc, NewSys(crc, window, now, maxSize), [])
    ensures NewSys(crc, window, now, maxSize).log.nextSeq == 0
  {
    hide LogInvariant, Flows, WrittenRecords, Clean;
    NewFlows<U64>(window, now);
    FreshLog(crc, maxSize);
    NothingSince(crc);
  }

  /** A record whose number has the low byte 10 is never clean: that byte is the newline. */
  lemma LowByteUnclean(crc: Checksum, r: Record)
    requires r.seqNo % 256 == 10
    ensures !Clean(crc, r)
  {
    var frame := Frame(crc, r);
    assert LittleEndian(r.seqNo, 8)[0] == r.seqNo % 256;
    assert frame[0] == Payload(r)[0] == NEWLINE;
  }

  /** The checksum's last byte is the end of the line: if it is a carriage return, the scanner drops it. */
  lemma HighChecksumByteUnclean(crc: Checksum, r: Record)
    requires crc(Payload(r)) / 0x100_0000 == 13
    ensures !Clean(crc, r)
  {
    var n := crc(Payload(r));
    assert Frame(crc, r)[35] == LittleEndian(n, 4)[3];
    assert LittleEndian(n, 4)[3] == LittleEndian(n / 256, 3)[2] == LittleEndian(n / 256 / 256, 2)[1];
    assert LittleEndian(n / 256 / 256, 2)[1] == LittleEndian(n / 256 / 256 / 256, 1)[0] == n / 256 / 256 / 256 % 256;
    assert n / 256 / 256 / 256 == 13;
  }

  /** The samples since the last flush carry consecutive numbers, up to the next one. */
  ghost predicate Numbered(since: seq<Logged>, nextSeq: nat) {
    && |since| <= nextSeq
    && forall i :: 0 <= i < |since| ==> since[i].rec.seqNo == nextSeq - |since| + i
  }

  lemma StepNumbered(crc: Checksum, threshold: int, a: Sys, op: IngestOp, b: Sys, since: seq<Logged>)
    requires Recoverable(crc, a, since) && Running(a) && a.log.nextSeq < MAX_U64
    requires Step(crc, threshold, a, op, b) && Numbered(since, a.log.nextSeq)
    ensures Numbered(SinceAfter(threshold, a, op, since), b.log.nextSeq)
  {
    hide Recoverable, Flows, FlushLockedSys, AppendCore, AppendLog, Synced;
    match op {
      case OpAppend(rec, order) =>
        AppendRecoverable(crc, a, since, rec);
        AppendStep(crc, threshold, a, op, b, since);
      case OpFlush(order) =>
        if a.core.mem.points == 0 || a.log.nextSeq == 0 { FlushNothingSys(crc, a, order); }
      case OpSync => SyncRecoverable(crc, a, since);
      case OpOther(core) =>
    }
  }

  lemma {:induction false} RunNumbered(crc: Checksum, threshold: int, states: seq<Sys>, ops: seq<IngestOp>,
                                       since: seq<Logged>, i: nat)
    requires IsIngestRun(crc, threshold, states, ops) && i <= |ops|
    requires Recoverable(crc, states[0], since) && states[0].log.nextSeq + i < MAX_U64
    requires Numbered(since, states[0].log.nextSeq)
    ensures Numbered(SinceRun(threshold, states, ops, since, i), states[i].log.nextSeq)
    decreases i
  {
    hide Recoverable, Step, SinceAfter, Synced, Numbered;
    if i > 0 {
      RunNumbered(crc, threshold, states, ops, since, i - 1);
      RunRecoverable(crc, threshold, states, ops, since, i - 1);
      StepNumbered(crc, threshold, states[i - 1], ops[i - 1], states[i],
                   SinceRun(threshold, states, ops, since, i - 1));
    }
  }

  /** Over every run from a new engine, at every synced moment: reopening and replaying from the
      persisted watermark into an empty memtable rebuilds exactly the live one, points, bounds and
      write count, if and only if every sample since the memtable was last emptied is
      newline-clean, given that none of those was refused. Given that all of them are clean, it
      does if and only if none was refused. What was logged before does not matter. */
  lemma RunRecovers(crc: Checksum, threshold: int, states: seq<Sys>, ops: seq<IngestOp>, i: nat,
                    window: int, now: int, maxSize: int)
    requires window > 0 && IsIngestRun(crc, threshold, states, ops) && i <= |ops|
    requires states[0] == NewSys(crc, window, now, maxSize) && i < MAX_U64
    requires Synced(states[i].log) || (i > 0 && ops[i - 1].OpSync?)
    ensures (var since := SinceRun(threshold, states, ops, [], i);
             var exact := RecoveredMem(crc, Reopen(crc, states[i].log)) == states[i].core.mem;
             && (exact <==> SameLastWrites(PointsFrom(CleanOf(crc, Recs(since))), PointsFrom(Accepted(since))))
             && ((forall e :: e in since ==> e.accepted) ==> (exact <==> forall e :: e in since ==> Clean(crc, e.rec)))
             && ((forall e :: e in since ==> Clean(crc, e.rec)) ==> (exact <==> forall e :: e in since ==> e.accepted)))
  {
    hide Recoverable, Step, Synced, Clean, NewSys, Reopen, RecoveredMem, SinceRun;
    NewRecoverable(crc, window, now, maxSize);
    RunRecoverable(crc, threshold, states, ops, [], i);
    RecoveryExact(crc, states[i], SinceRun(threshold, states, ops, [], i));
  }

  /** The failing inputs. A run of accepted samples is not recovered exactly once a number with the
      low byte 10 is among those not flushed: number 10 already, and any 256 unflushed samples. */
  lemma LowByteNotRecovered(crc: Checksum, threshold: int, states: seq<Sys>, ops: seq<IngestOp>, i: nat,
                            window: int, now: int, maxSize: int)
    requires window > 0 && IsIngestRun(crc, threshold, states, ops) && i <= |ops|
    requires states[0] == NewSys(crc, window, now, maxSize) && i < MAX_U64
    requires Synced(states[i].log) || (i > 0 && ops[i - 1].OpSync?)
    requires forall e :: e in SinceRun(threshold, states, ops, [], i) ==> e.accepted
    ensures (var since, nextSeq := SinceRun(threshold, states, ops, [], i), states[i].log.nextSeq;
             (exists n :: nextSeq - |since| <= n < nextSeq && n % 256 == 10) || |since| >= 256
             ==> RecoveredMem(crc, Reopen(crc, states[i].log)) != states[i].core.mem)
  {
    hide Recoverable, Step, Synced, Clean, NewSys, Reopen, RecoveredMem, SinceRun;
    var since, nextSeq := SinceRun(threshold, states, ops, [], i), states[i].log.nextSeq;
    NewRecoverable(crc, window, now, maxSize);
    RunRecovers(crc, threshold, states, ops, i, window, now, maxSize);
    RunNumbered(crc, threshold, states, ops, [], i);
    if |since| >= 256 {
      var low := nextSeq - |since|;
      var n := low + (266 - low % 256) % 256;
      assert n % 256 == 10 && low <= n < nextSeq;
    }
    if n :| nextSeq - |since| <= n < nextSeq && n % 256 == 10 {
      var k := n - (nextSeq - |since|);
      assert since[k].rec.seqNo == n && since[k] in since;
      LowByteUnclean(crc, since[k].rec);
    }
  }
}
