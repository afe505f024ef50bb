/** What each operation on the log does to one record that a restart would replay. */
module LogFates {
  import opened Bytes
  import opened Model
  import opened Seqs
  import opened Memtable
  import opened WalRecord
  import opened Wal
  import opened WalProperties
  import opened WalRuns
  import opened IngestState
  import opened Recovery

  /** The record is written, synced or not, and not below the watermark. */
  ghost predicate Held(crc: Checksum, w: Log, r: Record) {
    r in WrittenRecords(crc, w) && r.seqNo >= w.nextReplay
  }

  /** The record would survive a crash right now. */
  ghost predicate OnDisk(crc: Checksum, w: Log, r: Record) {
    r in DiskLog(crc, FilesOf(w))
  }

  lemma OnDiskWritten(crc: Checksum, w: Log, r: Record)
    requires LogInvariant(crc, w) && OnDisk(crc, w, r)
    ensures r in WrittenRecords(crc, w)
  {
    hide WrittenRecords, DiskLog;
    FramedLog(crc, w);
    FramedPrefix(crc, w);
    PrefixMember(DiskLog(crc, FilesOf(w)), WrittenRecords(crc, w), r);
  }

  /** `TruncateTo` leaves nothing buffered. */
  lemma TruncatedSynced(crc: Checksum, w: Log, upTo: U64)
    requires LogInvariant(crc, w)
    ensures Synced(TruncateToLog(crc, w, upTo))
  {
    hide Records, EncodeAll, OpenSeg, SegmentInvariant, WrittenRecords;
    var kept, t := KeptBy(w, upTo), TruncateToLog(crc, w, upTo);
    if HasCurrent(kept) {
      RewriteIsOpen(crc, w, upTo);
      OpenedWritten(crc, EncodeAll(crc, MustKeep(crc, w, upTo)));
      forall i | i in t.segs && i != Current(kept) ensures t.segs[i].buf == [] {
        assert i < Current(kept) <= Current(w);
      }
    } else {
      FreshHoldsNothing(crc);
    }
  }

  /** Exactly what `TruncateTo` leaves above its bound: the records on disk, except those of the file
      it rewrites that are not newline-clean. */
  lemma TruncateToLeaves(crc: Checksum, w: Log, upTo: U64, r: Record)
    requires LogInvariant(crc, w) && r.seqNo > upTo
    ensures r in WrittenRecords(crc, TruncateToLog(crc, w, upTo))
       <==> OnDisk(crc, w, r) && (r in MustKeep(crc, w, upTo) ==> Clean(crc, r))
  {
    hide LogInvariant, Clean, WrittenRecords, DiskLog, TruncateToLog, ReplayLog, MustKeep, Synced, AscendingSeq;
    var t, from, keep := TruncateToLog(crc, w, upTo), upTo + 1, MustKeep(crc, w, upTo);
    FramedLog(crc, w);
    FramedBounds(crc, w);
    TruncateToInvariant(crc, w, upTo);
    TruncatedSynced(crc, w, upTo);
    SyncedReplay(crc, t, from);
    ReplayAscends(crc, w, from);
    var common := TruncateToSplits(crc, w, upTo, from);
    AscendingConcat(common, FromSeq(keep, from));
    FilterMember(AtLeast(from), WrittenRecords(crc, t), r);
    FilterMember(AtLeast(from), DiskLog(crc, FilesOf(w)), r);
    FilterMember(AtLeast(from), keep, r);
    FilterMember(AtLeast(from), CleanOf(crc, keep), r);
    FilterMember(IsClean(crc), keep, r);
  }

  /** Which segments `TruncateTo` leaves: those with something above its bound, as they were, the newest
      of them rewritten; there nothing at or below the bound is left. With none, a fresh one. */
  lemma TruncateToDrops(crc: Checksum, w: Log, upTo: U64)
    requires HasCurrent(w)
    ensures (var t := TruncateToLog(crc, w, upTo);
             var cur := Current(t);
             && cur in t.segs && t.(segs := w.segs) == w
             && (forall r :: r in Records(crc, t.segs[cur].file) ==> r.seqNo > upTo)
             && if exists i :: i in w.segs && w.segs[i].last > upTo then
                  && (forall i :: i in t.segs <==> i in w.segs && w.segs[i].last > upTo)
                  && (forall i :: i in t.segs && i != cur ==> t.segs[i] == w.segs[i])
                else t.segs.Keys == {1} && t.segs[1].file == [])
  {
    hide Records, EncodeAll, OpenSeg, Clean;
    var kept, t, keep := KeptBy(w, upTo), TruncateToLog(crc, w, upTo), MustKeep(crc, w, upTo);
    FreshHoldsNothing(crc);
    if HasCurrent(kept) {
      CurrentExists(kept);
      assert Current(kept) in w.segs && w.segs[Current(kept)].last > upTo;
      RewriteIsOpen(crc, w, upTo);
      assert t.segs.Keys == kept.segs.Keys;
      OpenedWritten(crc, EncodeAll(crc, keep));
      ScanFindsClean(crc, keep);
      forall r | r in Records(crc, EncodeAll(crc, keep)) ensures r.seqNo > upTo {
        FilterMember(IsClean(crc), keep, r);
        FilterMember(AtLeast(upTo + 1), Records(crc, kept.segs[Current(kept)].file), r);
      }
    } else {
      forall i | i in w.segs ensures w.segs[i].last <= upTo { assert i !in kept.segs; }
      MaxIndexIs({1}, 1);
    }
  }

  /** `TruncateBefore` leaves the segments with something at or above its bound, all as they were. With
      none, a fresh one. */
  lemma TruncateBeforeDrops(crc: Checksum, w: Log, low: U64)
    requires HasCurrent(w)
    ensures (var t := TruncateBeforeLog(crc, w, low);
             && t.(segs := w.segs) == w
             && if exists i :: i in w.segs && w.segs[i].last >= low then
                  && (forall i :: i in t.segs <==> i in w.segs && w.segs[i].last >= low)
                  && (forall i :: i in t.segs ==> t.segs[i] == w.segs[i])
                else t.segs.Keys == {1} && t.segs[1].file == [])
  {
    hide Records;
    FreshHoldsNothing(crc);
    if i :| i in w.segs && w.segs[i].last >= low {
      assert i in Above(w.segs, low);
    } else {
      assert Above(w.segs, low) == map[];
    }
  }

  /** On any log of a lifetime: `TruncateTo` comes out, for every replay from above its bound, as if
      the log had been synced first, if and only if every record there is on disk already and none
      of the rewritten ones is lost to the line framing. */
  lemma TruncateToSyncIff(crc: Checksum, w: Log, upTo: U64)
    requires LogInvariant(crc, w)
    ensures HasCurrent(w)
    ensures (forall from: nat :: from > upTo ==>
                                   ReplayLog(crc, SyncLog(TruncateToLog(crc, w, upTo)), from)
                                   == ReplayLog(crc, SyncLog(w), from))
       <==> (forall r :: r in WrittenRecords(crc, w) && r.seqNo > upTo ==>
                           OnDisk(crc, w, r) && (r in MustKeep(crc, w, upTo) ==> Clean(crc, r)))
  {
    hide LogInvariant, Clean, WrittenRecords, TruncateToLog, ReplayLog, MustKeep, Synced, SyncLog, OnDisk, AscendingSeq;
    var t := TruncateToLog(crc, w, upTo);
    CurrentHeld(crc, w);
    TruncateToInvariant(crc, w, upTo);
    SyncedAfterSync(crc, w);
    SyncedAfterSync(crc, t);
    forall from: nat | from > upTo
      ensures ReplayLog(crc, SyncLog(t), from) == FromSeq(WrittenRecords(crc, t), from)
      ensures ReplayLog(crc, SyncLog(w), from) == FromSeq(WrittenRecords(crc, w), from)
      ensures AscendingSeq(FromSeq(WrittenRecords(crc, t), from)) && AscendingSeq(FromSeq(WrittenRecords(crc, w), from))
    {
      SyncedReplay(crc, SyncLog(t), from);
      SyncedReplay(crc, SyncLog(w), from);
      ReplayAscends(crc, SyncLog(t), from);
      ReplayAscends(crc, SyncLog(w), from);
    }
    forall from: nat, r: Record | from > upTo
      ensures r in FromSeq(WrittenRecords(crc, t), from) <==> r in WrittenRecords(crc, t) && r.seqNo >= from
      ensures r in FromSeq(WrittenRecords(crc, w), from) <==> r in WrittenRecords(crc, w) && r.seqNo >= from
    {
      FilterMember(AtLeast(from), WrittenRecords(crc, t), r);
      FilterMember(AtLeast(from), WrittenRecords(crc, w), r);
    }
    forall r: Record | r.seqNo > upTo
      ensures r in WrittenRecords(crc, t) <==> OnDisk(crc, w, r) && (r in MustKeep(crc, w, upTo) ==> Clean(crc, r))
      ensures OnDisk(crc, w, r) ==> r in WrittenRecords(crc, w)
    {
      TruncateToLeaves(crc, w, upTo, r);
      if OnDisk(crc, w, r) { OnDiskWritten(crc, w, r); }
    }
    if forall r :: r in WrittenRecords(crc, w) && r.seqNo > upTo ==> r in WrittenRecords(crc, t) {
      forall from: nat | from > upTo ensures ReplayLog(crc, SyncLog(t), from) == ReplayLog(crc, SyncLog(w), from) {
        SameAscending(FromSeq(WrittenRecords(crc, t), from), FromSeq(WrittenRecords(crc, w), from));
      }
    } else {
      var r: Record :| r in WrittenRecords(crc, w) && r.seqNo > upTo && r !in WrittenRecords(crc, t);
      assert r in FromSeq(WrittenRecords(crc, w), upTo + 1) && r !in FromSeq(WrittenRecords(crc, t), upTo + 1);
    }
  }

  lemma AppendHolds(crc: Checksum, w: Log, rec: Record, r: Record)
    requires LogInvariant(crc, w) && w.nextSeq < MAX_U64
    ensures (var w', own := AppendLog(crc, w, rec), rec.(seqNo := w.nextSeq);
             && LogInvariant(crc, w') && w' == w.(segs := w'.segs, nextSeq := w.nextSeq + 1)
             && (Held(crc, w', r) <==> Held(crc, w, r) || (r == own && Clean(crc, r) && r.seqNo >= w.nextReplay)))
  {
    hide LogInvariant, WrittenRecords, AppendLog, Clean;
    FramedLog(crc, w);
    AppendWrites(crc, w, rec);
    StepKeeps(crc, w, WalOp.OpAppend(rec));
    FilterMember(IsClean(crc), [rec.(seqNo := w.nextSeq)], r);
  }

  lemma SyncHolds(crc: Checksum, w: Log, r: Record)
    requires LogInvariant(crc, w)
    ensures LogInvariant(crc, SyncLog(w)) && SyncLog(w) == w.(segs := SyncLog(w).segs)
    ensures Held(crc, SyncLog(w), r) <==> Held(crc, w, r)
  {
    hide LogInvariant, WrittenRecords, Synced, SyncLog;
    CurrentHeld(crc, w);
    SyncedAfterSync(crc, w);
  }

  lemma CurrentHeld(crc: Checksum, w: Log)
    requires LogInvariant(crc, w)
    ensures HasCurrent(w)
  {
  }

  /** The watermark goes up to at least `from`. */
  lemma MarkHolds(crc: Checksum, w: Log, from: U64, r: Record)
    requires LogInvariant(crc, w)
    ensures LogInvariant(crc, SetReplayStartLog(w, from)) && CheckpointCurrent(SetReplayStartLog(w, from))
    ensures Held(crc, SetReplayStartLog(w, from), r) <==> Held(crc, w, r) && r.seqNo >= from
  {
    hide LogInvariant, DiskLog;
    SameSegments(crc, w, SetReplayStartLog(w, from));
    assert WrittenOf(SetReplayStartLog(w, from)) == WrittenOf(w);
  }

  /** With the watermark above its bound, as a flush leaves it, `TruncateTo` spares the clean records
      already on disk. */
  lemma TruncateHolds(crc: Checksum, w: Log, upTo: U64, r: Record)
    requires LogInvariant(crc, w) && w.nextReplay > upTo
    ensures LogInvariant(crc, TruncateToLog(crc, w, upTo))
    ensures TruncateToLog(crc, w, upTo) == w.(segs := TruncateToLog(crc, w, upTo).segs)
    ensures Held(crc, TruncateToLog(crc, w, upTo), r) ==> Held(crc, w, r) && OnDisk(crc, w, r)
    ensures Clean(crc, r) ==>
              (Held(crc, TruncateToLog(crc, w, upTo), r) <==> Held(crc, w, r) && OnDisk(crc, w, r))
  {
    hide LogInvariant, WrittenRecords, DiskLog, Clean, OnDisk;
    TruncateToInvariant(crc, w, upTo);
    if r.seqNo > upTo {
      TruncateToLeaves(crc, w, upTo, r);
      if OnDisk(crc, w, r) { OnDiskWritten(crc, w, r); }
    }
  }

  /** After a sync and a restart exactly what is held is replayed, and after a crash what of that is
      on disk. */
  lemma RestartReplays(crc: Checksum, w: Log, r: Record)
    requires LogInvariant(crc, w) && CheckpointCurrent(w) && w.nextSeq < MAX_U64
    ensures HasCurrent(w)
    ensures r in ReplayLog(crc, Reopen(crc, SyncLog(w)), Reopen(crc, SyncLog(w)).nextReplay) <==> Held(crc, w, r)
    ensures r in ReplayLog(crc, Reopen(crc, w), Reopen(crc, w).nextReplay) <==> Held(crc, w, r) && OnDisk(crc, w, r)
  {
    hide LogInvariant, WrittenRecords, DiskLog, Reopen, ReplayLog, Synced, SyncLog, FilesOf;
    CurrentHeld(crc, w);
    SyncHolds(crc, w, r);
    SyncedAfterSync(crc, w);
    var s := SyncLog(w);
    ReopenKeeps(crc, s);
    SyncedReplay(crc, Reopen(crc, s), s.nextReplay);
    FilterMember(AtLeast(s.nextReplay), WrittenRecords(crc, s), r);
    ReopenSegments(crc, w);
    ReopenBounds(crc, w);
    ReopenWatermark(crc, w);
    ReplayIsFilter(crc, Reopen(crc, w), w.nextReplay);
    FilterMember(AtLeast(w.nextReplay), DiskLog(crc, FilesOf(w)), r);
    if OnDisk(crc, w, r) { OnDiskWritten(crc, w, r); }
  }

  // ----- all records at once, in order -----

  /** From the watermark on the log holds exactly the newline-clean ones of `logged`. */
  ghost predicate Holds(crc: Checksum, w: Log, logged: seq<Record>) {
    LogInvariant(crc, w) && FromSeq(WrittenRecords(crc, w), w.nextReplay) == CleanOf(crc, logged)
  }

  ghost function OnDiskOf(crc: Checksum, w: Log): Record -> bool {
    r => OnDisk(crc, w, r)
  }

  predicate NumberLess(a: Record, b: Record) { a.seqNo < b.seqNo }

  lemma SameAscending(a: seq<Record>, b: seq<Record>)
    requires AscendingSeq(a) && AscendingSeq(b) && forall r :: r in a <==> r in b
    ensures a == b
  {
    assert Asymmetric(NumberLess) by {
      forall x, y | NumberLess(x, y) ensures !NumberLess(y, x) {}
    }
    forall i, j | 0 <= i < j < |a| ensures NumberLess(a[i], a[j]) {}
    forall i, j | 0 <= i < j < |b| ensures NumberLess(b[i], b[j]) {}
    AscendingUnique(NumberLess, a, b);
  }

  lemma HeldMember(crc: Checksum, w: Log, r: Record)
    ensures r in FromSeq(WrittenRecords(crc, w), w.nextReplay) <==> Held(crc, w, r)
  {
    hide WrittenRecords;
    FilterMember(AtLeast(w.nextReplay), WrittenRecords(crc, w), r);
  }

  lemma HeldAscends(crc: Checksum, w: Log)
    requires LogInvariant(crc, w)
    ensures AscendingSeq(FromSeq(WrittenRecords(crc, w), w.nextReplay))
  {
    hide WrittenRecords;
    FilterAscends(AtLeast(w.nextReplay), WrittenRecords(crc, w));
  }

  lemma AppendHoldsAll(crc: Checksum, w: Log, rec: Record, logged: seq<Record>)
    requires Holds(crc, w, logged) && w.nextSeq < MAX_U64
    ensures Holds(crc, AppendLog(crc, w, rec),
                  if w.nextSeq >= w.nextReplay then logged + [rec.(seqNo := w.nextSeq)] else logged)
  {
    hide LogInvariant, WrittenRecords, AppendLog, Clean, Filter;
    var r := rec.(seqNo := w.nextSeq);
    FramedLog(crc, w);
    AppendWrites(crc, w, rec);
    StepKeeps(crc, w, WalOp.OpAppend(rec));
    FilterOne(IsClean(crc), r);
    FilterOne(AtLeast(w.nextReplay), r);
    FilterNothing(AtLeast(w.nextReplay));
    FilterConcat(AtLeast(w.nextReplay), WrittenRecords(crc, w), CleanOf(crc, [r]));
    FilterConcat(IsClean(crc), logged, [r]);
  }

  lemma SyncHoldsAll(crc: Checksum, w: Log, logged: seq<Record>)
    requires Holds(crc, w, logged)
    ensures HasCurrent(w) && Holds(crc, SyncLog(w), logged) && Synced(SyncLog(w))
    ensures SyncLog(w) == w.(segs := SyncLog(w).segs)
  {
    hide LogInvariant, WrittenRecords, Clean, FromSeq, SyncLog;
    CurrentHeld(crc, w);
    SyncedAfterSync(crc, w);
  }

  lemma MarkHoldsAll(crc: Checksum, w: Log, from: U64, logged: seq<Record>)
    requires Holds(crc, w, logged)
    ensures Holds(crc, SetReplayStartLog(w, from), Filter(AtLeast(from), logged))
  {
    hide LogInvariant, DiskLog, Clean, Filter;
    var m, written := SetReplayStartLog(w, from), WrittenRecords(crc, w);
    SameSegments(crc, w, m);
    assert WrittenOf(m) == WrittenOf(w);
    FilterCommutes(IsClean(crc), AtLeast(from), logged);
    if from >= w.nextReplay {
      FilterNarrows(AtLeast(w.nextReplay), AtLeast(from), written);
    } else {
      forall r | r in FromSeq(written, w.nextReplay) ensures AtLeast(from)(r) {
        FilterMember(AtLeast(w.nextReplay), written, r);
      }
      FilterAll(AtLeast(from), FromSeq(written, w.nextReplay));
    }
  }

  lemma TruncateHoldsAll(crc: Checksum, w: Log, upTo: U64, logged: seq<Record>)
    requires Holds(crc, w, logged) && w.nextReplay > upTo
    ensures Holds(crc, TruncateToLog(crc, w, upTo), Filter(OnDiskOf(crc, w), logged))
  {
    hide LogInvariant, WrittenRecords, TruncateToLog, Clean, Filter, OnDisk, Held, AscendingSeq;
    var t, clean := TruncateToLog(crc, w, upTo), CleanOf(crc, logged);
    TruncateToInvariant(crc, w, upTo);
    TruncateHolds(crc, w, upTo, Record(0, 0, 0, 0));
    FilterCommutes(IsClean(crc), OnDiskOf(crc, w), logged);
    HeldAscends(crc, w);
    HeldAscends(crc, t);
    FilterAscends(OnDiskOf(crc, w), clean);
    forall r ensures r in FromSeq(WrittenRecords(crc, t), t.nextReplay) <==> r in Filter(OnDiskOf(crc, w), clean) {
      HeldMember(crc, w, r);
      HeldMember(crc, t, r);
      TruncateHolds(crc, w, upTo, r);
      FilterMember(OnDiskOf(crc, w), clean, r);
      FilterMember(IsClean(crc), logged, r);
    }
    SameAscending(FromSeq(WrittenRecords(crc, t), t.nextReplay), Filter(OnDiskOf(crc, w), clean));
  }

  /** Reopened after a sync, the log gives back exactly those. */
  lemma RestartReplaysAll(crc: Checksum, w: Log, logged: seq<Record>)
    requires Holds(crc, w, logged) && CheckpointCurrent(w) && w.nextSeq < MAX_U64
    ensures HasCurrent(w)
    ensures RecoveredMem(crc, Reopen(crc, SyncLog(w))) == MemWriteAll(EmptyMem(), PointsFrom(CleanOf(crc, logged)))
  {
    hide LogInvariant, WrittenRecords, Clean, FromSeq, SyncLog, Synced, Reopen, ReplayLog;
    SyncHoldsAll(crc, w, logged);
    ReopenKeeps(crc, SyncLog(w));
    SyncedReplay(crc, Reopen(crc, SyncLog(w)), w.nextReplay);
  }
}
