/** Several lifetimes of one directory: what survives from one to the next. */
module Lifetimes {
  import opened Bytes
  import opened Model
  import opened Seqs
  import opened Memtable
  import opened Sharding
  import opened EngineState
  import opened EngineSteps
  import opened FlushLoss
  import opened EngineQueries
  import opened EngineFlush
  import opened TableBounds
  import opened WalRecord
  import opened Wal
  import opened WalProperties
  import opened WalRuns
  import opened IngestState
  import opened Recovery
  import opened Interleaving
  import EngineRuns

  /** A new process on the directory another one left, before `Recover`. */
  ghost function Restarted(crc: Checksum, w: Log, window: int, now: int): Sys
    requires window > 0
  {
    Sys(NewCore(window, now), Reopen(crc, w), 0)
  }

  // ----- the watermark after a restart -----

  lemma {:induction false} LastOfAttained(recs: seq<Record>)
    ensures LastOf(recs) == 0 || exists r :: r in recs && r.seqNo == LastOf(recs)
  {
    if recs != [] {
      var n := |recs| - 1;
      LastOfAttained(recs[..n]);
      if r :| r in recs[..n] && r.seqNo == LastOf(recs[..n]) { assert r in recs; }
      assert recs[n] in recs;
    }
  }

  /** Numbering resumes from what is found on disk, and nothing raises it to the watermark. The
      watermark stays within the numbering exactly when it is at most 1 or the disk still shows a
      record no older than the one just before it. */
  lemma RestartWatermark(crc: Checksum, w: Log)
    requires LogInvariant(crc, w) && Synced(w) && CheckpointCurrent(w) && w.nextSeq < MAX_U64
    ensures Reopen(crc, w).nextReplay <= Reopen(crc, w).nextSeq
       <==> w.nextReplay <= 1 || exists r :: r in WrittenRecords(crc, w) && r.seqNo + 1 >= w.nextReplay
  {
    hide Records, OpenSeg, LogInvariant, Reopen, WrittenRecords, WrittenOf;
    var o := Reopen(crc, w);
    ReopenKeeps(crc, w);
    ReopenNumbers(crc, w);
    CurrentOf(crc, w);
    ReopenSegments(crc, w);
    if r :| r in WrittenRecords(crc, w) && r.seqNo + 1 >= w.nextReplay {
      WrittenBelow(crc, o, r);
    }
    if w.nextReplay <= o.nextSeq && w.nextReplay > 1 {
      var i :| i in o.segs && o.nextSeq == o.segs[i].last + 1;
      OpenedWritten(crc, w.segs[i].file);
      LastOfAttained(Records(crc, w.segs[i].file));
      var r :| r in Records(crc, w.segs[i].file) && r.seqNo == o.segs[i].last;
      WrittenHere(crc, w, i, r);
    }
  }

  lemma CurrentOf(crc: Checksum, w: Log)
    requires LogInvariant(crc, w)
    ensures HasCurrent(w)
  {
  }

  lemma WrittenHere(crc: Checksum, w: Log, i: nat, r: Record)
    requires Synced(w) && i in w.segs && r in Records(crc, w.segs[i].file)
    ensures r in WrittenRecords(crc, w)
  {
    hide Records;
    SyncedFiles(w);
    assert i in FilesOf(w) && FilesOf(w)[i] == w.segs[i].file;
    DiskLogMember(crc, FilesOf(w), r);
  }

  /** A sample appended to an empty memtable over an empty log tail, then synced: a restart brings
      it back exactly when the watermark did not lie above the numbering. */
  lemma NextSampleRecovered(crc: Checksum, s: Sys, rec: Record, threshold: int, order: seq<nat>)
    requires Running(s) && Flows(s.core) && LogInvariant(crc, s.log) && CheckpointCurrent(s.log)
    requires s.core.mem == EmptyMem() && FromSeq(WrittenRecords(crc, s.log), s.log.nextReplay) == []
    requires s.log.nextSeq + 1 < MAX_U64 && threshold > 1
    requires Routable(s.core.shards, rec.ts) && Clean(crc, rec.(seqNo := s.log.nextSeq))
    ensures (var a := AppendSys(crc, s, rec, threshold, order).0;
             && a.core.mem == MemWrite(EmptyMem(), PointOf(rec))
             && (RecoveredMem(crc, Reopen(crc, SyncLog(a.log))) == a.core.mem <==> s.log.nextReplay <= s.log.nextSeq))
  {
    hide LogInvariant, Flows, FromSeq, WrittenRecords, AppendLog, SyncLog, Reopen, Clean, RecoveredMem,
      Synced, RouteShards, MemWrite;
    var a, r := AppendSys(crc, s, rec, threshold, order).0, rec.(seqNo := s.log.nextSeq);
    NothingSince(crc);
    OneWrite(PointOf(rec));
    if s.log.nextReplay <= s.log.nextSeq {
      AppendRecoverable(crc, s, [], rec);
      var since := LogSample(s, [], rec);
      assert a == Sys(AppendCore(s.core, PointOf(rec)), AppendLog(crc, s.log, rec), s.lastFlushSeq);
      SyncRecoverable(crc, a, since);
      RecoveryExact(crc, a.(log := SyncLog(a.log)), since);
    } else {
      BehindWatermark(crc, s.log, rec);
    }
  }

  /** A whole lifetime of a new process on a synced log, many appends and flushes under way at once: a
      record it logs is replayed by the next process exactly as everywhere, with the old watermark.
      Where that lies above the numbering, everything below it is lost, however often it is synced. */
  lemma LifetimeReplays(crc: Checksum, threshold: int, w: Log, window: int, now: int,
                        states: seq<InFlight>, ops: seq<AtomicOp>, i: nat, r: Record)
    requires LogInvariant(crc, w) && Synced(w) && CheckpointCurrent(w) && window > 0
    requires w.nextSeq + |ops| + 1 < MAX_U64
    requires IsAtomicRun(crc, threshold, states, ops) && i < |ops| && Logs(states[i], ops[i], r)
    requires states[0] == InFlight(Restarted(crc, w, window, now), {}, Idle)
    ensures HasCurrent(states[|ops|].sys.log)
    ensures (var o := Reopen(crc, SyncLog(states[|ops|].sys.log));
             (r in ReplayLog(crc, o, o.nextReplay))
             <==> Clean(crc, r) && r.seqNo >= w.nextReplay && Spared(crc, states, ops, i, |ops|, r))
  {
    hide LogInvariant, Reopen, Synced, AtomicNext, Clean, Spared, SyncLog, ReplayLog, NewCore;
    ReopenKeeps(crc, w);
    SampleReplayedIff(crc, threshold, states, ops, i, r);
  }

  lemma OneWrite(p: Point<U64>)
    ensures MemWrite(EmptyMem(), p).points == 1 && EmptyMem<U64>().points == 0
  {
  }

  lemma AppendedBehind(crc: Checksum, w: Log, rec: Record)
    requires LogInvariant(crc, w) && w.nextSeq + 1 < MAX_U64
    requires w.nextSeq < w.nextReplay && FromSeq(WrittenRecords(crc, w), w.nextReplay) == []
    ensures (var a := AppendLog(crc, w, rec);
             && LogInvariant(crc, a) && a == w.(segs := a.segs, nextSeq := w.nextSeq + 1)
             && FromSeq(WrittenRecords(crc, a), w.nextReplay) == [])
  {
    hide LogInvariant, WrittenRecords, AppendLog, Filter, Clean;
    var r := rec.(seqNo := w.nextSeq);
    FramedLog(crc, w);
    AppendWrites(crc, w, rec);
    StepKeeps(crc, w, WalOp.OpAppend(rec));
    FilterOne(AtLeast(w.nextReplay), r);
    FilterOne(IsClean(crc), r);
    FilterNothing(AtLeast(w.nextReplay));
    FilterConcat(AtLeast(w.nextReplay), WrittenRecords(crc, w), CleanOf(crc, [r]));
  }

  /** A record numbered below the watermark is never replayed. */
  lemma BehindWatermark(crc: Checksum, w: Log, rec: Record)
    requires LogInvariant(crc, w) && CheckpointCurrent(w) && w.nextSeq + 1 < MAX_U64
    requires w.nextSeq < w.nextReplay && FromSeq(WrittenRecords(crc, w), w.nextReplay) == []
    ensures RecoveredMem(crc, Reopen(crc, SyncLog(AppendLog(crc, w, rec)))) == EmptyMem()
  {
    hide LogInvariant, FromSeq, WrittenRecords, AppendLog, SyncLog, Reopen, Synced, ReplayLog;
    CurrentOf(crc, w);
    var a := AppendLog(crc, w, rec);
    AppendedBehind(crc, w, rec);
    SyncedAfterSync(crc, a);
    ReopenKeeps(crc, SyncLog(a));
    SyncedReplay(crc, Reopen(crc, SyncLog(a)), w.nextReplay);
    NothingSince(crc);
  }

  /** Two or more samples, a flush, a clean restart, one more sample, a sync and a second restart:
      that sample, acknowledged and synced, is gone. */
  lemma FlushThenRestartLosesNext(crc: Checksum, s: Sys, since: seq<Logged>, order: seq<nat>,
                                  window: int, now: int, rec: Record, threshold: int)
    requires Recoverable(crc, s, since) && Running(s) && s.core.mem.points > 0 && IsOrder(order, s.core.mem.byID)
    requires 2 <= s.log.nextSeq < MAX_U64 - 1 && window > 0 && threshold > 1
    requires (var next := Restarted(crc, FlushSys(crc, s, order).0.log, window, now);
              Routable(next.core.shards, rec.ts) && Clean(crc, rec.(seqNo := next.log.nextSeq)))
    ensures (var next := Restarted(crc, FlushSys(crc, s, order).0.log, window, now);
             && Running(next)
             && var a := AppendSys(crc, next, rec, threshold, []).0;
             && a.core.mem == MemWrite(EmptyMem(), PointOf(rec))
             && RecoveredMem(crc, Reopen(crc, SyncLog(a.log))) != a.core.mem)
  {
    hide Recoverable, Flows, LogInvariant, WrittenRecords, Reopen, Clean, FromSeq, FlushLockedSys, NewCore,
      Synced, AppendSys, RecoveredMem;
    var f := FlushSys(crc, s, order).0;
    FlushRecoverable(crc, s, since, s.log.nextSeq - 1, order);
    InvariantParts(crc, f, []);
    RestartWatermark(crc, f.log);
    ReopenKeeps(crc, f.log);
    NewFlows<U64>(window, now);
    CurrentOf(crc, Reopen(crc, f.log));
    NewCoreMem(window, now);
    NothingFrom(f.log.nextReplay);
    NextSampleRecovered(crc, Restarted(crc, f.log, window, now), rec, threshold, []);
  }

  lemma NothingFrom(from: nat)
    ensures FromSeq([], from) == []
  {
  }

  lemma InvariantParts(crc: Checksum, s: Sys, since: seq<Logged>)
    requires Recoverable(crc, s, since)
    ensures Flows(s.core) && LogInvariant(crc, s.log) && CheckpointCurrent(s.log)
  {
  }

  lemma NewCoreMem(window: int, now: int)
    requires window > 0
    ensures NewCore<U64>(window, now).mem == EmptyMem()
    ensures NewCore<U64>(window, now).shards.shards != [] && NewCore<U64>(window, now).shards.window > 0
  {
  }

  // ----- Recover -----

  /** Replayed records count as accepted: `Recover` writes them without asking `Route`. */
  function Replayed(recs: seq<Record>): (since: seq<Logged>)
    ensures |since| == |recs|
  {
    seq(|recs|, i requires 0 <= i < |recs| => Logged(recs[i], true))
  }

  lemma ReplayedIs(crc: Checksum, recs: seq<Record>)
    ensures Recs(Replayed(recs)) == recs && Accepted(Replayed(recs)) == recs
  {
    AcceptedCount(Replayed(recs));
  }

  lemma {:induction false} WrittenMem(ps: seq<Point<U64>>)
    ensures MemInvariant(MemWriteAll(EmptyMem(), ps))
    ensures Times(MemWriteAll(EmptyMem(), ps).byID) == TimesOf(ps)
    decreases |ps|
  {
    hide MemWrite, Times, TimesOf;
    if ps == [] {
      NoTimes<U64>();
      EmptyTimes();
    } else {
      var n := |ps| - 1;
      WrittenMem(ps[..n]);
      WriteKeepsInvariant(MemWriteAll(EmptyMem(), ps[..n]), ps[n]);
      WriteTable(MemWriteAll(EmptyMem(), ps[..n]), ps[n]);
      assert ps[..n + 1] == ps;
      TimesSnoc(ps, n);
    }
  }

  lemma EmptyTimes()
    ensures TimesOf<U64>([]) == {}
  {
  }

  /** Every sample replayed lies before the end of the window the new process starts with. */
  ghost predicate BeforeWindowEnd(recs: seq<Record>, window: int, now: int)
    requires window > 0
  {
    forall r :: r in recs ==> r.ts < NewShards(window, now).value.Newest().end
  }

  lemma TimesBefore(recs: seq<Record>, window: int, now: int)
    requires window > 0 && BeforeWindowEnd(recs, window, now)
    ensures forall ts :: ts in TimesOf(PointsFrom(recs)) ==> ts < NewCore<U64>(window, now).shards.Newest().end
  {
    hide NewShards;
    NewCoreMem(window, now);
    forall ts | ts in TimesOf(PointsFrom(recs)) ensures ts < NewCore<U64>(window, now).shards.Newest().end {
      var i :| 0 <= i < |recs| && PointsFrom(recs)[i].ts == ts;
      assert recs[i] in recs;
    }
  }

  lemma ReplayedCore(mem: Mem<U64>, recs: seq<Record>, window: int, now: int)
    requires window > 0 && BeforeWindowEnd(recs, window, now)
    requires mem == MemWriteAll(EmptyMem(), PointsFrom(recs))
    ensures Flows(NewCore<U64>(window, now).(mem := mem))
  {
    hide MemInvariant, Times, TimesOf;
    NewFlows<U64>(window, now);
    NewCoreMem(window, now);
    WrittenMem(PointsFrom(recs));
    TimesBefore(recs, window, now);
  }

  /** A clean restart of a synced engine: with the watermark within the numbering, replaying puts
      the new process in step with its log again, so that all of the above holds in its lifetime too. */
  lemma RestartRecoverable(crc: Checksum, s: Sys, since: seq<Logged>, window: int, now: int)
    requires Recoverable(crc, s, since) && Synced(s.log) && s.log.nextSeq < MAX_U64
    requires window > 0
    requires BeforeWindowEnd(CleanOf(crc, Recs(since)), window, now)
    requires s.log.nextReplay <= 1 || exists r :: r in WrittenRecords(crc, s.log) && r.seqNo + 1 >= s.log.nextReplay
    ensures Recoverable(crc, ReplaySys(crc, Restarted(crc, s.log, window, now)), Replayed(CleanOf(crc, Recs(since))))
  {
    hide LogInvariant, Flows, FromSeq, WrittenRecords, Reopen, Clean, CleanOf, Synced, NewCore, Accepted,
      MemWriteAll, BeforeWindowEnd, ReplayLog;
    var clean, o := CleanOf(crc, Recs(since)), Reopen(crc, s.log);
    RestartWatermark(crc, s.log);
    ReopenKeeps(crc, s.log);
    SyncedReplay(crc, o, s.log.nextReplay);
    NewCoreMem(window, now);
    ReplayedIs(crc, clean);
    CleanTwice(crc, Recs(since));
    ReplayedCore(MemWriteAll(EmptyMem(), PointsFrom(clean)), clean, window, now);
  }

  /** What a new process finds in the log another one left, synced or not. */
  ghost function Found(crc: Checksum, w: Log): seq<Record> {
    ReplayLog(crc, Reopen(crc, w), Reopen(crc, w).nextReplay)
  }

  /** The new process with the replayed samples in its memtable. */
  ghost function ReplayedInto(crc: Checksum, w: Log, window: int, now: int): Core<U64>
    requires window > 0
  {
    NewCore<U64>(window, now).(mem := MemWriteAll(EmptyMem(), PointsFrom(Found(crc, w))))
  }

  lemma ReplayedShape(crc: Checksum, w: Log, window: int, now: int)
    requires window > 0 && now > -window
    ensures (var c := ReplayedInto(crc, w, window, now);
             && ShardInvariant(c.shards) && MemInvariant(c.mem) && c.shards.shards != [] && c.shards.window > 0
             && CoreInvariant(c.(mem := EmptyMem())) && c.mem.points == |Found(crc, w)|)
  {
    hide ReplayLog, Reopen;
    NewCoreInvariant<U64>(window, now);
    NewCoreMem(window, now);
    WrittenMem(PointsFrom(Found(crc, w)));
    PointsCount(EmptyMem(), PointsFrom(Found(crc, w)));
  }

  /** A record found carries a number from the watermark on, below the next one. */
  lemma FoundNumbers(crc: Checksum, w: Log)
    requires LogInvariant(crc, w) && CheckpointCurrent(w) && w.nextSeq < MAX_U64 && Found(crc, w) != []
    ensures (var o := Reopen(crc, w); HasCurrent(o) && 1 <= o.nextSeq && o.nextReplay <= o.nextSeq)
  {
    hide Records, OpenSeg, Reopen, ReplayLog, SegmentInvariant, WrittenRecords, DiskLog;
    var o := Reopen(crc, w);
    CurrentOf(crc, w);
    ReopenNumbers(crc, w);
    ReopenBounds(crc, w);
    ReopenSegments(crc, w);
    ReplayIsFilter(crc, o, o.nextReplay);
    var r := Found(crc, w)[0];
    assert r in Found(crc, w);
    FilterMember(AtLeast(o.nextReplay), DiskLog(crc, FilesOf(o)), r);
    DiskLogMember(crc, FilesOf(o), r);
  }

  /** `Recover` in a new process, after a crash at any moment, synced or not, that left something to
      replay: it succeeds in every order the maps may be walked in if and only if the replayed
      samples at or after the new window's start lie in one window. */
  lemma RecoverSucceedsIff(crc: Checksum, s: Sys, since: seq<Logged>, window: int, now: int)
    requires Recoverable(crc, s, since) && s.log.nextSeq < MAX_U64 && window > 0 && now > -window
    requires Found(crc, s.log) != []
    ensures Running(Restarted(crc, s.log, window, now))
    ensures (var c := ReplayedInto(crc, s.log, window, now);
             && c.shards.shards != [] && c.shards.window > 0
             && ((forall order :: IsOrder(order, c.mem.byID) ==>
                                    RecoverSys(crc, Restarted(crc, s.log, window, now), order).1)
                 <==> OneWindow(c)))
  {
    hide Recoverable, LogInvariant, Reopen, ReplayLog, FlushCore, OneWindow, NewCore, TruncateToLog, ShardInvariant,
      MemInvariant, MemWriteAll;
    InvariantParts(crc, s, since);
    FoundNumbers(crc, s.log);
    NewCoreMem(window, now);
    ReplayedShape(crc, s.log, window, now);
    FlushSucceedsIff(ReplayedInto(crc, s.log, window, now));
  }

  /** When it succeeds, exactly the replayed samples at or after the new window's start reach a
      block; the rest are gone from memtable, store and log, and so is any torn tail. The process is
      in step with its log, so what is proved about runs holds from here on. */
  lemma RecoverStores(crc: Checksum, s: Sys, since: seq<Logged>, window: int, now: int, order: seq<nat>)
    requires Recoverable(crc, s, since) && s.log.nextSeq < MAX_U64 && window > 0 && now > -window
    requires Found(crc, s.log) != [] && Running(Restarted(crc, s.log, window, now))
    requires NewCore<U64>(window, now).shards.shards != [] && NewCore<U64>(window, now).shards.window > 0
    requires OneWindow(ReplayedInto(crc, s.log, window, now))
    requires IsOrder(order, ReplayedInto(crc, s.log, window, now).mem.byID)
    ensures (var (r, ok) := RecoverSys(crc, Restarted(crc, s.log, window, now), order);
             && ok && r.core == FlushInto(ReplayedInto(crc, s.log, window, now))
             && Recoverable(crc, r, []) && WrittenRecords(crc, r.log) == [] && Synced(r.log))
  {
    hide Recoverable, Flows, CoreInvariant, LogInvariant, Reopen, ReplayLog, FlushCore, FlushInto, OneWindow, NewCore,
      TruncateToLog, ShardInvariant, MemInvariant, MemWriteAll, WrittenRecords, Synced;
    var c := ReplayedInto(crc, s.log, window, now);
    InvariantParts(crc, s, since);
    FoundNumbers(crc, s.log);
    NewCoreMem(window, now);
    ReplayedShape(crc, s.log, window, now);
    FlushOneWindow(c, order);
    FlushIntoKeeps(c);
    CoreFlows(FlushInto(c));
    ReopenedTruncates(crc, s.log, RecoverSys(crc, Restarted(crc, s.log, window, now), order).0, c);
  }

  lemma ReopenedTruncates(crc: Checksum, w: Log, r: Sys, c: Core<U64>)
    requires LogInvariant(crc, w) && CheckpointCurrent(w) && w.nextSeq < MAX_U64
    requires (var o := Reopen(crc, w);
              && 1 <= o.nextSeq && o.nextReplay <= o.nextSeq
              && r.log == TruncateToLog(crc, SetReplayStartLog(o, Inc64(o.nextSeq - 1)), o.nextSeq - 1))
    requires Flows(r.core) && r.core.mem == EmptyMem()
    ensures Recoverable(crc, r, []) && WrittenRecords(crc, r.log) == [] && Synced(r.log)
  {
    hide Flows, LogInvariant, Reopen, TruncateToLog, WrittenRecords, Clean, Synced, OrFresh, OpenSeg;
    var o := Reopen(crc, w);
    ReopenNumbers(crc, w);
    var low := SetReplayStartLog(o, Inc64(o.nextSeq - 1));
    TruncateAll(crc, low, o.nextSeq - 1);
    NothingSince(crc);
    NothingFrom(o.nextSeq);
  }

  /** When it fails, the memtable has been emptied all the same: one block was created, no shard
      lists it, and only the log still holds the samples. */
  lemma RecoverFails(crc: Checksum, s: Sys, since: seq<Logged>, window: int, now: int, order: seq<nat>)
    requires Recoverable(crc, s, since) && s.log.nextSeq < MAX_U64 && window > 0 && now > -window
    requires Found(crc, s.log) != [] && Running(Restarted(crc, s.log, window, now))
    requires !RecoverSys(crc, Restarted(crc, s.log, window, now), order).1
    ensures (var r := RecoverSys(crc, Restarted(crc, s.log, window, now), order).0;
             && r.core.mem == EmptyMem() && r.core.store.nextID == 1 && AllListed(r.core.shards.shards) == []
             && r.log == Reopen(crc, s.log))
  {
    hide Recoverable, LogInvariant, Reopen, ReplayLog, FlushCore, TruncateToLog, ShardInvariant, MemInvariant,
      MemWriteAll, AllListed, Flows, NewCore;
    var c := ReplayedInto(crc, s.log, window, now);
    InvariantParts(crc, s, since);
    FoundNumbers(crc, s.log);
    NewCoreMem(window, now);
    ReplayedShape(crc, s.log, window, now);
    FailedFlush(c, order);
    NewListing(window, now);
  }

  lemma NewListing(window: int, now: int)
    requires window > 0
    ensures AllListed(NewCore<U64>(window, now).shards.shards) == []
    ensures NewCore<U64>(window, now).store.nextID == 0
  {
    var shards := NewCore<U64>(window, now).shards.shards;
    assert shards[..0] == [];
    assert AllListed(shards) == AllListed(shards[..0]) + shards[0].blocks;
  }
}
