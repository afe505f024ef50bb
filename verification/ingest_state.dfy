/** The write path as a value: memtable, shards and store, the log, and the flush watermark. */
module IngestState {
  import opened Bytes
  import opened Model
  import opened Memtable
  import opened Sharding
  import opened EngineState
  import opened EngineSteps
  import opened WalRecord
  import opened Wal

  datatype Sys = Sys(core: Core<U64>, log: Log, lastFlushSeq: U64)

  /** There is a segment to write to and a shard to route to. */
  ghost predicate Running(s: Sys) {
    HasCurrent(s.log) && s.core.shards.shards != [] && s.core.shards.window > 0
  }

  function PointOf(r: Record): Point<U64> {
    Point(r.ts, r.value, r.series)
  }

  function PointsFrom(recs: seq<Record>): (ps: seq<Point<U64>>)
    ensures |ps| == |recs|
  {
    seq(|recs|, i requires 0 <= i < |recs| => PointOf(recs[i]))
  }

  /** `flushLocked(seq)`: false when storing a group failed, which leaves the log alone. */
  ghost function FlushLockedSys(crc: Checksum, s: Sys, seqNo: U64, order: seq<nat>): (r: (Sys, bool))
    requires Running(s)
    ensures Running(r.0)
  {
    if s.core.mem.points == 0 then (s, true)
    else
      FlushedWindow(s.core, order);
      var (core, ok) := FlushCore(s.core, order);
      if ok then (Sys(core, TruncateToLog(crc, SetReplayStartLog(s.log, Inc64(seqNo)), seqNo), seqNo), true)
      else (s.(core := core), false)
  }

  lemma FlushedWindow(c: Core<U64>, order: seq<nat>)
    requires c.shards.shards != [] && c.shards.window > 0
    ensures FlushCore(c, order).0.shards.shards != [] && FlushCore(c, order).0.shards.window > 0
  {
  }

  /** `Flush`. */
  ghost function FlushSys(crc: Checksum, s: Sys, order: seq<nat>): (r: (Sys, bool))
    requires Running(s)
    ensures Running(r.0)
  {
    if s.log.nextSeq == 0 then (s, true) else FlushLockedSys(crc, s, s.log.nextSeq - 1, order)
  }

  /** `Append` once the log has handed out `seqNo`: the route, then the memtable, then a flush when
      the memtable is full. A refused sample stays in the log. */
  ghost function FinishSys(crc: Checksum, s: Sys, rec: Record, seqNo: U64, threshold: int, order: seq<nat>)
    : (r: (Sys, Option<Error>))
    requires Running(s)
    ensures Running(r.0)
  {
    if !Routable(s.core.shards, rec.ts) then (s, Some(BeforeActiveShard))
    else
      var written := s.(core := AppendCore(s.core, PointOf(rec)));
      if written.core.mem.points >= threshold then
        var (flushed, ok) := FlushLockedSys(crc, written, seqNo, order);
        (flushed, if ok then None else Some(BeforeActiveShard))
      else (written, None)
  }

  /** `Append` once the series is known, with nothing in between: the log first, outside the lock,
      then the rest under the lock. */
  ghost function AppendSys(crc: Checksum, s: Sys, rec: Record, threshold: int, order: seq<nat>)
    : (r: (Sys, Option<Error>))
    requires Running(s)
    ensures Running(r.0)
  {
    FinishSys(crc, s.(log := AppendLog(crc, s.log, rec)), rec, s.log.nextSeq, threshold, order)
  }

  /** `Recover`: every record from the watermark on goes straight into the memtable, unrouted, and
      the memtable is flushed. */
  ghost function ReplaySys(crc: Checksum, s: Sys): (r: Sys)
    ensures r.log == s.log && r.core.shards == s.core.shards
  {
    s.(core := s.core.(mem := MemWriteAll(s.core.mem, PointsFrom(ReplayLog(crc, s.log, s.log.nextReplay)))))
  }

  ghost function RecoverSys(crc: Checksum, s: Sys, order: seq<nat>): (r: (Sys, bool))
    requires Running(s)
    ensures Running(r.0)
  {
    FlushSys(crc, ReplaySys(crc, s), order)
  }

  // ----- what reaches the memtable, in terms of the log's own records -----

  /** The last value logged at each timestamp of one series. */
  function LastLogged(recs: seq<Record>, series: nat): map<int, U64> {
    if recs == [] then map[]
    else
      var r := recs[|recs| - 1];
      var before := LastLogged(recs[..|recs| - 1], series);
      if r.series == series then before[r.ts := r.value] else before
  }

  /** The memtable holds exactly these values for the series, in time order. */
  ghost predicate Buffers(m: Mem<U64>, series: nat, values: map<int, U64>) {
    Ascending(PointsOf(m.byID, series)) && AsMap(PointsOf(m.byID, series)) == values
  }

  /** One sample written: its own series has its value at its timestamp, and nothing else changed. */
  lemma SampleBuffered(m: Mem<U64>, r: Record, series: nat)
    requires MemInvariant(m)
    ensures Ascending(PointsOf(m.byID, series)) && MemInvariant(MemWrite(m, PointOf(r)))
    ensures MemWrite(m, PointOf(r)).points == m.points + 1
    ensures (var before := AsMap(PointsOf(m.byID, series));
             Buffers(MemWrite(m, PointOf(r)), series, if series == r.series then before[r.ts := r.value] else before))
  {
    hide Upsert, AsMap, Times;
    WriteKeepsInvariant(m, PointOf(r));
    WriteTable(m, PointOf(r));
    UpsertIsUpdate(PointsOf(m.byID, r.series), PointOf(r));
  }

  /** One more write: `series` has `value` at `ts`, and nothing else changed. */
  ghost predicate Added(a: Mem<U64>, b: Mem<U64>, series: nat, ts: int, value: U64) {
    && b.points == a.points + 1
    && forall s: nat ::
         && Ascending(PointsOf(a.byID, s))
         && var before := AsMap(PointsOf(a.byID, s));
         Buffers(b, s, if s == series then before[ts := value] else before)
  }

  /** An accepted sample is in the memtable under its own series, timestamp and value, and everything
      else there is as it was. */
  lemma AppendAdds(c: Core<U64>, rec: Record)
    requires c.shards.shards != [] && c.shards.window > 0 && MemInvariant(c.mem)
    requires rec.ts >= c.shards.Newest().start
    ensures Added(c.mem, AppendCore(c, PointOf(rec)).mem, rec.series, rec.ts, rec.value)
    ensures AppendCore(c, PointOf(rec)).mem.points == c.mem.points + 1
  {
    hide MemWrite, RouteShards, Buffers, AsMap, MemInvariant;
    forall series: nat
      ensures Ascending(PointsOf(c.mem.byID, series))
      ensures (var before := AsMap(PointsOf(c.mem.byID, series));
               Buffers(MemWrite(c.mem, PointOf(rec)), series,
                       if series == rec.series then before[rec.ts := rec.value] else before))
    {
      SampleBuffered(c.mem, rec, series);
    }
    SampleBuffered(c.mem, rec, 0);
  }

  /** The second step of an append that is refused, or is accepted and makes no flush due. */
  lemma FinishAdds(crc: Checksum, s: Sys, rec: Record, seqNo: U64, threshold: int, order: seq<nat>)
    requires Running(s) && MemInvariant(s.core.mem)
    ensures (var (done, error) := FinishSys(crc, s, rec, seqNo, threshold, order);
             && (rec.ts < s.core.shards.Newest().start ==> done == s && error == Some(BeforeActiveShard))
             && (rec.ts >= s.core.shards.Newest().start && s.core.mem.points + 1 < threshold ==>
                   && error == None && done.log == s.log
                   && Added(s.core.mem, done.core.mem, rec.series, rec.ts, rec.value)))
  {
    hide AppendCore, Added, MemInvariant, FlushLockedSys;
    if rec.ts >= s.core.shards.Newest().start { AppendAdds(s.core, rec); }
  }

  /** The second step of an append that is accepted and fills the memtable: the memtable is emptied into
      blocks, and if that worked the watermark is past the number of the first step. */
  lemma FinishFlushes(crc: Checksum, s: Sys, rec: Record, seqNo: U64, threshold: int, order: seq<nat>)
    requires Running(s) && seqNo < MAX_U64
    requires rec.ts >= s.core.shards.Newest().start && s.core.mem.points + 1 >= threshold
    ensures (var (done, error) := FinishSys(crc, s, rec, seqNo, threshold, order);
             && done.core.mem == EmptyMem()
             && if error == None then done.lastFlushSeq == seqNo && done.log.nextReplay > seqNo
                else error == Some(BeforeActiveShard) && done.log == s.log && done.lastFlushSeq == s.lastFlushSeq)
  {
    hide RouteShards, AsMap, Upsert, GroupPoints, StoreGroups, Flatten;
  }

  /** Records written in order: every series holds what it held, overwritten by the last value logged
      at each timestamp. */
  lemma {:induction false} ReplayBuffers(m: Mem<U64>, recs: seq<Record>, series: nat)
    requires MemInvariant(m)
    ensures Ascending(PointsOf(m.byID, series)) && MemInvariant(MemWriteAll(m, PointsFrom(recs)))
    ensures MemWriteAll(m, PointsFrom(recs)).points == m.points + |recs|
    ensures Buffers(MemWriteAll(m, PointsFrom(recs)), series,
                    AsMap(PointsOf(m.byID, series)) + LastLogged(recs, series))
    decreases |recs|
  {
    hide MemWrite, MemInvariant, AsMap;
    if recs == [] {
      SampleBuffered(m, Record(0, 0, 0, 0), series);
      assert PointsFrom(recs) == [];
    } else {
      var before, r := recs[..|recs| - 1], recs[|recs| - 1];
      ReplayBuffers(m, before, series);
      assert PointsFrom(recs)[..|recs| - 1] == PointsFrom(before);
      SampleBuffered(MemWriteAll(m, PointsFrom(before)), r, series);
    }
  }
}
