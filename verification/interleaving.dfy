/** The write path step by step. `Append` writes its log record outside the lock and does the rest
    under it; a flush holds the lock while it stores the memtable, raises the watermark and truncates
    the log, but the log has a lock of its own. So up to any number of appends are under way at once,
    and log records and syncs come in between all steps of a flush. */
module Interleaving {
  import opened Bytes
  import opened Model
  import opened Seqs
  import opened Memtable
  import opened Sharding
  import opened EngineState
  import opened EngineSteps
  import opened FlushLoss
  import opened WalRecord
  import opened Wal
  import opened WalProperties
  import opened WalRuns
  import opened IngestState
  import opened Recovery
  import opened LogFates

  /** What the holder of the lock does next. */
  datatype Phase =
    | Idle
    | Storing(upTo: U64)
    | Marking(upTo: U64)
    | Cutting(upTo: U64)

  /** The write path with the records of the appends that are logged and not finished. */
  datatype InFlight = InFlight(sys: Sys, pending: set<Record>, phase: Phase)

  /** One atomic step by any goroutine. OtherStep is any other call, which leaves the memtable alone. */
  datatype AtomicOp =
    | LogStep(rec: Record)
    | FinishStep(rec: Record)
    | FlushStep
    | StoreStep(order: seq<nat>)
    | MarkStep
    | CutStep
    | SyncStep
    | OtherStep(core: Core<U64>)

  ghost predicate AtomicNext(crc: Checksum, threshold: int, a: InFlight, op: AtomicOp, b: InFlight)
    requires Running(a.sys)
  {
    var log, core := a.sys.log, a.sys.core;
    match op
    case LogStep(rec) =>
      b == a.(sys := a.sys.(log := AppendLog(crc, log, rec)), pending := a.pending + {rec.(seqNo := log.nextSeq)})
    case FinishStep(r) =>
      && a.phase == Idle && r in a.pending
      && b == InFlight(a.sys.(core := AppendCore(core, PointOf(r))), a.pending - {r},
                       if Fills(threshold, core, r) then Storing(r.seqNo) else Idle)
    case FlushStep =>
      a.phase == Idle && b == a.(phase := if log.nextSeq == 0 then Idle else Storing(log.nextSeq - 1))
    case StoreStep(order) =>
      && a.phase.Storing? && IsOrder(order, core.mem.byID)
      && var (stored, ok) := FlushCore(core, order);
      b == if core.mem.points == 0 then a.(phase := Idle)
      else a.(sys := a.sys.(core := stored), phase := if ok then Marking(a.phase.upTo) else Idle)
    case MarkStep =>
      && a.phase.Marking?
      && b == a.(sys := Sys(core, SetReplayStartLog(log, Inc64(a.phase.upTo)), a.phase.upTo),
              phase := Cutting(a.phase.upTo))
    case CutStep =>
      a.phase.Cutting? && b == a.(sys := a.sys.(log := TruncateToLog(crc, log, a.phase.upTo)), phase := Idle)
    case SyncStep => b == a.(sys := a.sys.(log := SyncLog(log)))
    case OtherStep(other) => other.mem == core.mem && b == a.(sys := a.sys.(core := other))
  }

  /** The sample is accepted and makes a flush due. */
  ghost predicate Fills(threshold: int, core: Core<U64>, r: Record)
    requires core.shards.shards != [] && core.shards.window > 0
  {
    Routable(core.shards, r.ts) && core.mem.points + 1 >= threshold
  }

  ghost predicate IsAtomicRun(crc: Checksum, threshold: int, states: seq<InFlight>, ops: seq<AtomicOp>) {
    && |states| == |ops| + 1
    && forall i :: 0 <= i < |ops| ==>
                     Running(states[i].sys) && AtomicNext(crc, threshold, states[i], ops[i], states[i + 1])
  }

  // ----- the steps in one go -----

  /** What is left of a flush, with nothing in between. */
  ghost function Settled(crc: Checksum, a: InFlight, order: seq<nat>): Sys
    requires Running(a.sys)
  {
    match a.phase
    case Idle => a.sys
    case Storing(upTo) => FlushLockedSys(crc, a.sys, upTo, order).0
    case Marking(upTo) => Sys(a.sys.core, TruncateToLog(crc, SetReplayStartLog(a.sys.log, Inc64(upTo)), upTo), upTo)
    case Cutting(upTo) => a.sys.(log := TruncateToLog(crc, a.sys.log, upTo))
  }

  lemma StoredRunning(c: Core<U64>, order: seq<nat>)
    requires c.shards.shards != [] && c.shards.window > 0
    ensures FlushCore(c, order).0.shards.shards != [] && FlushCore(c, order).0.shards.window > 0
    ensures c.mem.points > 0 ==> FlushCore(c, order).0.mem == EmptyMem()
  {
  }

  /** The steps after the first only carry out what is left. */
  lemma StepsSettle(crc: Checksum, threshold: int, a: InFlight, op: AtomicOp, b: InFlight, order: seq<nat>)
    requires Running(a.sys) && AtomicNext(crc, threshold, a, op, b)
    requires op == StoreStep(order) || op.MarkStep? || op.CutStep?
    ensures Running(b.sys) && Settled(crc, b, order) == Settled(crc, a, order)
  {
    hide FlushCore, TruncateToLog, IsOrder;
    StoredRunning(a.sys.core, order);
  }

  /** Uninterrupted, the second step of an append and what follows it are `Finish`, and a flush step
      and what follows it are `Flush`. */
  lemma Uninterrupted(crc: Checksum, threshold: int, a: InFlight, op: AtomicOp, b: InFlight, order: seq<nat>)
    requires Running(a.sys) && AtomicNext(crc, threshold, a, op, b)
    ensures op.FinishStep? ==>
              && Running(b.sys)
              && Settled(crc, b, order) == FinishSys(crc, a.sys, op.rec, op.rec.seqNo, threshold, order).0
    ensures op.FlushStep? ==> Running(b.sys) && Settled(crc, b, order) == FlushSys(crc, a.sys, order).0
  {
    hide FlushLockedSys, TruncateToLog, RouteShards, IsOrder;
  }

  // ----- what every run keeps -----

  /** Every number in use was handed out, and the watermark is raised before the log is cut. */
  ghost predicate Orderly(crc: Checksum, a: InFlight) {
    && LogInvariant(crc, a.sys.log) && CheckpointCurrent(a.sys.log)
    && (forall r :: r in a.pending ==> r.seqNo < a.sys.log.nextSeq)
    && (!a.phase.Idle? ==> a.phase.upTo < a.sys.log.nextSeq)
    && (a.phase.Cutting? ==> a.phase.upTo < a.sys.log.nextReplay)
  }

  /** What the step asks of a record for a restart to replay it still: raising the watermark asks for
      a number above the flush's bound, cutting the log that the record is on disk by then. */
  ghost predicate Spares(crc: Checksum, a: InFlight, op: AtomicOp, r: Record) {
    && (op.MarkStep? && a.phase.Marking? ==> r.seqNo > a.phase.upTo)
    && (op.CutStep? ==> OnDisk(crc, a.sys.log, r))
  }

  /** The step that logs this very record. */
  ghost predicate Logs(a: InFlight, op: AtomicOp, r: Record) {
    op.LogStep? && r == op.rec.(seqNo := a.sys.log.nextSeq)
  }

  /** What one step does to the log, and to one record in it. */
  lemma StepHolds(crc: Checksum, threshold: int, a: InFlight, op: AtomicOp, b: InFlight, r: Record)
    requires Orderly(crc, a) && Running(a.sys) && a.sys.log.nextSeq < MAX_U64
    requires AtomicNext(crc, threshold, a, op, b)
    ensures Orderly(crc, b) && a.sys.log.nextSeq <= b.sys.log.nextSeq <= a.sys.log.nextSeq + 1
    ensures a.sys.log.nextReplay <= b.sys.log.nextReplay
    ensures b.sys.log.nextReplay == a.sys.log.nextReplay || b.sys.log.nextReplay <= b.sys.log.nextSeq
    ensures Logs(a, op, r) ==>
              (Held(crc, b.sys.log, r) <==> Clean(crc, r) && r.seqNo >= a.sys.log.nextReplay)
    ensures Logs(a, op, r) ==> b.sys.log.nextSeq == r.seqNo + 1
    ensures !Logs(a, op, r) && Held(crc, b.sys.log, r) ==> Held(crc, a.sys.log, r) && Spares(crc, a, op, r)
    ensures !Logs(a, op, r) && Clean(crc, r) ==>
              (Held(crc, b.sys.log, r) <==> Held(crc, a.sys.log, r) && Spares(crc, a, op, r))
  {
    hide LogInvariant, Clean, Held, OnDisk, AppendLog, SyncLog, TruncateToLog, FlushCore, AppendCore, Running, IsOrder;
    var log := a.sys.log;
    match op {
      case LogStep(rec) =>
        AppendHolds(crc, log, rec, r);
        HeldBelow(crc, log, r);
      case FinishStep(_) =>
      case FlushStep =>
      case StoreStep(_) =>
      case MarkStep => MarkHolds(crc, log, Inc64(a.phase.upTo), r);
      case CutStep => TruncateHolds(crc, log, a.phase.upTo, r);
      case SyncStep => SyncHolds(crc, log, r);
      case OtherStep(_) =>
    }
  }

  lemma HeldBelow(crc: Checksum, w: Log, r: Record)
    requires LogInvariant(crc, w)
    ensures Held(crc, w, r) ==> r.seqNo < w.nextSeq
  {
    hide LogInvariant, WrittenRecords;
    if Held(crc, w, r) { WrittenBelow(crc, w, r); }
  }

  // ----- one sample over a whole run -----

  lemma {:induction false} RunOrderly(crc: Checksum, threshold: int, states: seq<InFlight>, ops: seq<AtomicOp>, n: nat)
    requires IsAtomicRun(crc, threshold, states, ops) && n <= |ops|
    requires Orderly(crc, states[0]) && states[0].sys.log.nextSeq + n < MAX_U64
    ensures Orderly(crc, states[n])
    ensures states[0].sys.log.nextSeq <= states[n].sys.log.nextSeq <= states[0].sys.log.nextSeq + n
    ensures (var first, now := states[0].sys.log, states[n].sys.log;
             && first.nextReplay <= now.nextReplay
             && (now.nextReplay == first.nextReplay || now.nextReplay <= now.nextSeq))
    decreases n
  {
    hide Orderly, AtomicNext;
    if n > 0 {
      RunOrderly(crc, threshold, states, ops, n - 1);
      StepHolds(crc, threshold, states[n - 1], ops[n - 1], states[n], Record(0, 0, 0, 0));
    }
  }

  /** Every later flush spares the record. */
  ghost predicate Spared(crc: Checksum, states: seq<InFlight>, ops: seq<AtomicOp>, i: nat, n: nat, r: Record)
    requires n <= |ops| <= |states|
  {
    forall j :: i < j < n ==> Spares(crc, states[j], ops[j], r)
  }

  lemma {:induction false} RunHolds(crc: Checksum, threshold: int, states: seq<InFlight>, ops: seq<AtomicOp>,
                                    i: nat, n: nat, r: Record)
    requires IsAtomicRun(crc, threshold, states, ops) && i < n <= |ops|
    requires Orderly(crc, states[0]) && states[0].sys.log.nextSeq + n < MAX_U64
    requires Logs(states[i], ops[i], r)
    ensures r.seqNo < states[n].sys.log.nextSeq
    ensures Held(crc, states[n].sys.log, r)
       <==> Clean(crc, r) && r.seqNo >= states[0].sys.log.nextReplay && Spared(crc, states, ops, i, n, r)
    decreases n
  {
    hide Orderly, AtomicNext, Held, Clean, Spares;
    RunOrderly(crc, threshold, states, ops, i);
    RunOrderly(crc, threshold, states, ops, n - 1);
    StepHolds(crc, threshold, states[n - 1], ops[n - 1], states[n], r);
    if i < n - 1 {
      RunHolds(crc, threshold, states, ops, i, n - 1, r);
      assert Spared(crc, states, ops, i, n, r)
        <==> Spared(crc, states, ops, i, n - 1, r) && Spares(crc, states[n - 1], ops[n - 1], r);
    }
  }

  /** However many appends and flushes are under way, whatever comes in between any two of their
      steps, and wherever the run breaks off: a record is replayed after a sync and a restart if and
      only if it is newline-clean, its number is not below the watermark the run began with, and every
      later flush had a bound below its number and found it on disk when it cut the log. After a crash
      it has to be on disk at that moment, too. */
  lemma SampleReplayedIff(crc: Checksum, threshold: int, states: seq<InFlight>, ops: seq<AtomicOp>, i: nat, r: Record)
    requires IsAtomicRun(crc, threshold, states, ops) && i < |ops|
    requires Orderly(crc, states[0]) && states[0].sys.log.nextSeq + |ops| < MAX_U64
    requires Logs(states[i], ops[i], r)
    ensures HasCurrent(states[|ops|].sys.log)
    ensures (var w := states[|ops|].sys.log;
             var stays := && Clean(crc, r) && r.seqNo >= states[0].sys.log.nextReplay
                          && Spared(crc, states, ops, i, |ops|, r);
             var synced, crashed := Reopen(crc, SyncLog(w)), Reopen(crc, w);
             && (r in ReplayLog(crc, synced, synced.nextReplay) <==> stays)
             && (r in ReplayLog(crc, crashed, crashed.nextReplay) <==> stays && OnDisk(crc, w, r)))
  {
    hide AtomicNext, Held, Clean, Spared, OnDisk, LogInvariant, SyncLog, Reopen, ReplayLog;
    RunOrderly(crc, threshold, states, ops, |ops|);
    RunHolds(crc, threshold, states, ops, i, |ops|, r);
    RestartReplays(crc, states[|ops|].sys.log, r);
  }

  /** A flush that an older append triggers cuts the log below a newer one's record: that one is
      replayed after a restart exactly if it was on disk by then, whether its sample is still to be
      written or was in the memtable just flushed, and is in a block as well. */
  lemma OverlappingFlush(crc: Checksum, threshold: int, s: Sys, older: Record, newer: Record, order: seq<nat>)
    requires Running(s) && LogInvariant(crc, s.log) && s.log.nextSeq < MAX_U64
    requires older.seqNo < newer.seqNo && Held(crc, s.log, newer) && Clean(crc, newer)
    requires Fills(threshold, s.core, older) && s.core.mem.points >= 0
    requires FlushCore(AppendCore(s.core, PointOf(older)), order).1
    ensures (var done := FinishSys(crc, s, older, older.seqNo, threshold, order).0;
             var o := Reopen(crc, SyncLog(done.log));
             && done.core.mem == EmptyMem()
             && (newer in ReplayLog(crc, o, o.nextReplay) <==> OnDisk(crc, s.log, newer)))
  {
    hide LogInvariant, Clean, Held, OnDisk, SyncLog, TruncateToLog, FlushCore, Reopen, ReplayLog, RouteShards, Upsert;
    var marked := SetReplayStartLog(s.log, Inc64(older.seqNo));
    StoredRunning(AppendCore(s.core, PointOf(older)), order);
    MarkHolds(crc, s.log, Inc64(older.seqNo), newer);
    TruncateHolds(crc, marked, older.seqNo, newer);
    SameDisk(crc, s.log, marked, newer);
    RestartReplays(crc, TruncateToLog(crc, marked, older.seqNo), newer);
  }

  lemma SameDisk(crc: Checksum, a: Log, b: Log, r: Record)
    requires a.segs == b.segs
    ensures OnDisk(crc, a, r) <==> OnDisk(crc, b, r)
  {
    assert FilesOf(a) == FilesOf(b);
  }

  // ----- all samples over a whole run -----

  /** The records a restart has to look at, after one more step. */
  ghost function LoggedAfter(crc: Checksum, a: InFlight, op: AtomicOp, logged: seq<Record>): seq<Record> {
    match op
    case LogStep(rec) =>
      if a.sys.log.nextSeq >= a.sys.log.nextReplay then logged + [rec.(seqNo := a.sys.log.nextSeq)] else logged
    case MarkStep => if a.phase.Marking? then Filter(AtLeast(a.phase.upTo + 1), logged) else logged
    case CutStep => Filter(OnDiskOf(crc, a.sys.log), logged)
    case _ => logged
  }

  /** The records whose samples reached the memtable since it was last emptied, after one more step. */
  ghost function WrittenAfter(a: InFlight, op: AtomicOp, written: seq<Record>): seq<Record>
    requires Running(a.sys)
  {
    match op
    case FinishStep(r) => if Routable(a.sys.core.shards, r.ts) then written + [r] else written
    case StoreStep(_) => []
    case _ => written
  }

  ghost predicate Tracked(crc: Checksum, a: InFlight, logged: seq<Record>, written: seq<Record>) {
    && Orderly(crc, a) && Holds(crc, a.sys.log, logged)
    && a.sys.core.mem == MemWriteAll(EmptyMem(), PointsFrom(written))
  }

  lemma StepLogged(crc: Checksum, threshold: int, a: InFlight, op: AtomicOp, b: InFlight, logged: seq<Record>)
    requires Orderly(crc, a) && Running(a.sys) && a.sys.log.nextSeq < MAX_U64
    requires AtomicNext(crc, threshold, a, op, b) && Holds(crc, a.sys.log, logged)
    ensures Holds(crc, b.sys.log, LoggedAfter(crc, a, op, logged))
  {
    hide Holds, AppendLog, SyncLog, TruncateToLog, FlushCore, AppendCore, Running, IsOrder, LogInvariant, OnDiskOf;
    var log := a.sys.log;
    match op {
      case LogStep(rec) => AppendHoldsAll(crc, log, rec, logged);
      case FinishStep(_) =>
      case FlushStep =>
      case StoreStep(_) =>
      case MarkStep => MarkHoldsAll(crc, log, Inc64(a.phase.upTo), logged);
      case CutStep => TruncateHoldsAll(crc, log, a.phase.upTo, logged);
      case SyncStep => SyncHoldsAll(crc, log, logged);
      case OtherStep(_) =>
    }
  }

  lemma StepWritten(crc: Checksum, threshold: int, a: InFlight, op: AtomicOp, b: InFlight, written: seq<Record>)
    requires Running(a.sys) && AtomicNext(crc, threshold, a, op, b)
    requires a.sys.core.mem == MemWriteAll(EmptyMem(), PointsFrom(written))
    ensures b.sys.core.mem == MemWriteAll(EmptyMem(), PointsFrom(WrittenAfter(a, op, written)))
  {
    hide AppendLog, SyncLog, TruncateToLog, FlushCore, MemWrite, MemWriteAll, IsOrder, RouteShards;
    match op {
      case FinishStep(r) =>
        PointsFromSnoc(written, r);
        MemWriteSnoc(EmptyMem(), PointsFrom(written), PointOf(r));
      case StoreStep(order) =>
        StoredRunning(a.sys.core, order);
        NothingSince(crc);
        PointsCount(EmptyMem(), PointsFrom(written));
        if a.sys.core.mem.points == 0 { assert written == []; }
      case _ =>
    }
  }

  ghost function LoggedRun(crc: Checksum, states: seq<InFlight>, ops: seq<AtomicOp>, logged: seq<Record>, n: nat)
    : seq<Record>
    requires n <= |ops| <= |states|
  {
    if n == 0 then logged else LoggedAfter(crc, states[n - 1], ops[n - 1], LoggedRun(crc, states, ops, logged, n - 1))
  }

  ghost function WrittenRun(states: seq<InFlight>, ops: seq<AtomicOp>, written: seq<Record>, n: nat): seq<Record>
    requires n <= |ops| <= |states| && forall j :: 0 <= j < |ops| ==> Running(states[j].sys)
  {
    if n == 0 then written else WrittenAfter(states[n - 1], ops[n - 1], WrittenRun(states, ops, written, n - 1))
  }

  lemma {:induction false} RunTracked(crc: Checksum, threshold: int, states: seq<InFlight>, ops: seq<AtomicOp>,
                                      logged: seq<Record>, written: seq<Record>, n: nat)
    requires IsAtomicRun(crc, threshold, states, ops) && n <= |ops|
    requires Tracked(crc, states[0], logged, written) && states[0].sys.log.nextSeq + n < MAX_U64
    ensures Tracked(crc, states[n], LoggedRun(crc, states, ops, logged, n), WrittenRun(states, ops, written, n))
    decreases n
  {
    hide Orderly, AtomicNext, Holds, LoggedAfter, WrittenAfter;
    RunOrderly(crc, threshold, states, ops, n);
    if n > 0 {
      RunOrderly(crc, threshold, states, ops, n - 1);
      RunTracked(crc, threshold, states, ops, logged, written, n - 1);
      StepLogged(crc, threshold, states[n - 1], ops[n - 1], states[n], LoggedRun(crc, states, ops, logged, n - 1));
      StepWritten(crc, threshold, states[n - 1], ops[n - 1], states[n], WrittenRun(states, ops, written, n - 1));
    }
  }

  /** Over every such run, whoever is in the middle of what: after a sync a restart rebuilds exactly
      the live memtable if and only if the newline-clean records still to be replayed and the samples
      written since the memtable was last emptied, each in its own order, are equally many and leave
      the same last value at every timestamp of every series. */
  lemma AtomicRecoveryExact(crc: Checksum, threshold: int, states: seq<InFlight>, ops: seq<AtomicOp>,
                            logged: seq<Record>, written: seq<Record>)
    requires IsAtomicRun(crc, threshold, states, ops)
    requires Tracked(crc, states[0], logged, written) && states[0].sys.log.nextSeq + |ops| < MAX_U64
    ensures HasCurrent(states[|ops|].sys.log)
    ensures RecoveredMem(crc, Reopen(crc, SyncLog(states[|ops|].sys.log))) == states[|ops|].sys.core.mem
       <==> SameLastWrites(PointsFrom(CleanOf(crc, LoggedRun(crc, states, ops, logged, |ops|))),
                           PointsFrom(WrittenRun(states, ops, written, |ops|)))
  {
    hide AtomicNext, LogInvariant, Holds, Clean, MemWriteAll, SameLastWrites, SyncLog, Reopen, RecoveredMem, LoggedRun,
      WrittenRun;
    var n := |ops|;
    var logs, writes := LoggedRun(crc, states, ops, logged, n), WrittenRun(states, ops, written, n);
    RunOrderly(crc, threshold, states, ops, n);
    RunTracked(crc, threshold, states, ops, logged, written, n);
    RestartReplaysAll(crc, states[n].sys.log, logs);
    SameTableIff(PointsFrom(CleanOf(crc, logs)), PointsFrom(writes));
  }

  /** A new engine on an empty directory. */
  lemma NewTracked(crc: Checksum, window: int, now: int, maxSize: int)
    requires window > 0
    ensures Tracked(crc, InFlight(NewSys(crc, window, now, maxSize), {}, Idle), [], [])
  {
    hide LogInvariant, WrittenRecords, Clean;
    FreshLog(crc, maxSize);
    NothingSince(crc);
    FilterNothing(AtLeast(0));
  }

  // ----- one flush between the two steps -----

  /** The first step done, the second still to come: in the log, not in the memtable. */
  function Pending(s: Sys, rec: Record): Logged {
    Logged(rec.(seqNo := s.log.nextSeq), false)
  }

  lemma LoggedOnly(crc: Checksum, s: Sys, since: seq<Logged>, rec: Record)
    requires Recoverable(crc, s, since) && Running(s) && s.log.nextSeq < MAX_U64
    ensures Recoverable(crc, s.(log := AppendLog(crc, s.log, rec)), since + [Pending(s, rec)])
    ensures AppendLog(crc, s.log, rec).nextSeq == s.log.nextSeq + 1
  {
    hide LogInvariant, Flows, FromSeq, WrittenRecords, AppendLog, Clean, Accepted, MemWriteAll;
    AppendedLog(crc, s.log, Recs(since), rec);
    RecsSnoc(since, Pending(s, rec));
  }

  /** One flush in between, everything else accepted and clean: the sample survives if and only if
      that flush finds nothing buffered. */
  lemma InterleavedFlush(crc: Checksum, threshold: int, s: Sys, since: seq<Logged>, rec: Record, order: seq<nat>)
    requires Recoverable(crc, s, since) && Running(s) && s.log.nextSeq + 2 < MAX_U64
    requires IsOrder(order, s.core.mem.byID) && s.core.mem.points + 1 < threshold && threshold > 1
    requires forall e :: e in since ==> e.accepted && Clean(crc, e.rec)
    requires Routable(s.core.shards, rec.ts) && Clean(crc, rec.(seqNo := s.log.nextSeq))
    ensures (var flushed := FlushSys(crc, s.(log := AppendLog(crc, s.log, rec)), order).0;
             var done := FinishSys(crc, flushed, rec, s.log.nextSeq, threshold, []).0;
             RecoveredMem(crc, Reopen(crc, SyncLog(done.log))) == done.core.mem <==> s.core.mem.points == 0)
  {
    hide Recoverable, Flows, LogInvariant, SyncLog, Reopen, RecoveredMem, Clean, AppendLog, FlushLockedSys,
      RouteShards, FlushPlain, Synced, MemWrite, MemWriteAll, Accepted;
    var logged := s.(log := AppendLog(crc, s.log, rec));
    var flushed := FlushSys(crc, logged, order).0;
    var r := rec.(seqNo := s.log.nextSeq);
    LoggedOnly(crc, s, since, rec);
    if s.core.mem.points > 0 {
      FlushRecoverable(crc, logged, since + [Pending(s, rec)], s.log.nextSeq, order);
      FlushedStart(s.core);
      SyncRecoverable(crc, flushed, []);
      RecoveredIs(crc, flushed.(log := SyncLog(flushed.log)), []);
      NothingSince(crc);
      WriteCounts(EmptyMem(), PointOf(rec));
    } else {
      FlushNothingSys(crc, logged, order);
      AppendRecoverable(crc, s, since, rec);
      var now := LogSample(s, since, rec);
      var done := FinishSys(crc, flushed, rec, s.log.nextSeq, threshold, []).0;
      assert done == Sys(AppendCore(s.core, PointOf(rec)), logged.log, s.lastFlushSeq);
      SyncRecoverable(crc, done, now);
      RecoveryExact(crc, done.(log := SyncLog(done.log)), now);
    }
  }

  lemma FlushedStart(c: Core<U64>)
    requires c.shards.shards != []
    ensures FlushPlain(c).shards.shards != [] && FlushPlain(c).shards.Newest().start == c.shards.Newest().start
  {
  }

  lemma WriteCounts(m: Mem<U64>, p: Point<U64>)
    ensures MemWrite(m, p).points == m.points + 1 && EmptyMem<U64>().points == 0
  {
  }
}
