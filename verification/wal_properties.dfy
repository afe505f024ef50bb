/** What the log guarantees: replay is a filter of what is on disk, sequence numbers ascend,
    truncation loses nothing above its bound, a crash leaves a prefix. */
module WalProperties {
  import opened Bytes
  import opened Model
  import opened Seqs
  import opened WalRecord
  import opened Wal

  // ----- a crash at any byte of any file -----

  lemma {:induction false} DecodeLooksAt36(crc: Checksum, a: seq<Byte>, b: seq<Byte>)
    requires |a| >= FRAME_SIZE && |b| >= FRAME_SIZE && a[..FRAME_SIZE] == b[..FRAME_SIZE]
    ensures Decode(crc, a) == Decode(crc, b)
  {
    hide Read64, Read32, ToSigned;
    SlicesAgree(a, b, 0, RECORD_SIZE);
    SlicesAgree(a, b, RECORD_SIZE, FRAME_SIZE);
    SlicesAgree(a, b, 0, 8);
    SlicesAgree(a, b, 8, 16);
    SlicesAgree(a, b, 16, 24);
    SlicesAgree(a, b, 24, 32);
    assert a[..RECORD_SIZE] == a[0..RECORD_SIZE] && b[..RECORD_SIZE] == b[0..RECORD_SIZE];
  }

  lemma SlicesAgree(a: seq<Byte>, b: seq<Byte>, i: nat, j: nat)
    requires i <= j <= FRAME_SIZE <= |a| && FRAME_SIZE <= |b| && a[..FRAME_SIZE] == b[..FRAME_SIZE]
    ensures a[i..j] == b[i..j]
  {
    SliceOfPrefix(a, FRAME_SIZE, i, j);
    SliceOfPrefix(b, FRAME_SIZE, i, j);
  }

  lemma SliceOfPrefix(a: seq<Byte>, n: nat, i: nat, j: nat)
    requires i <= j <= n <= |a|
    ensures a[..n][i..j] == a[i..j]
  {
  }

  lemma OfLinePrefix(crc: Checksum, q: seq<Byte>, whole: seq<Byte>)
    requires q <= whole
    ensures OfLine(crc, q) <= OfLine(crc, whole)
  {
    hide Decode;
    var a, b := DropReturn(q), DropReturn(whole);
    if |a| < FRAME_SIZE {
      OfLineShort(crc, q);
    } else if q != whole {
      assert a[..FRAME_SIZE] == b[..FRAME_SIZE];
      DecodeLooksAt36(crc, a, b);
    }
  }

  lemma OfLineShort(crc: Checksum, q: seq<Byte>)
    requires |DropReturn(q)| < FRAME_SIZE
    ensures OfLine(crc, q) == []
  {
  }

  lemma {:induction false} CrashAnywhereFrom(crc: Checksum, current: seq<Byte>, b: seq<Byte>, k: nat)
    requires k <= |b|
    ensures FlatMap(LineRecords(crc), SplitFrom(current, b[..k], NEWLINE))
         <= FlatMap(LineRecords(crc), SplitFrom(current, b, NEWLINE))
    decreases k
  {
    hide OfLine;
    var f := LineRecords(crc);
    if k == 0 {
      FirstPiece(current, b);
      if current != [] {
        OfLinePrefix(crc, current, SplitFrom(current, b, NEWLINE)[0]);
        assert FlatMap(f, [current]) == f(current);
      }
    } else {
      assert b[..k][1..] == b[1..][..k - 1];
      if b[0] == NEWLINE {
        CrashAnywhereFrom(crc, [], b[1..], k - 1);
        assert ([current] + SplitFrom([], b[1..], NEWLINE))[1..] == SplitFrom([], b[1..], NEWLINE);
        assert ([current] + SplitFrom([], b[..k][1..], NEWLINE))[1..] == SplitFrom([], b[..k][1..], NEWLINE);
      } else {
        CrashAnywhereFrom(crc, current + [b[0]], b[1..], k - 1);
      }
    }
  }

  lemma {:induction false} FirstPiece(current: seq<Byte>, b: seq<Byte>)
    ensures current != [] ==> SplitFrom(current, b, NEWLINE) != [] && current <= SplitFrom(current, b, NEWLINE)[0]
    decreases |b|
  {
    if b != [] && b[0] != NEWLINE {
      FirstPiece(current + [b[0]], b[1..]);
    }
  }

  /** Whatever a file holds, cutting it at any byte leaves a prefix of its records. */
  lemma CrashAnywhere(crc: Checksum, file: seq<Byte>, k: nat)
    requires k <= |file|
    ensures Records(crc, file[..k]) <= Records(crc, file)
  {
    CrashAnywhereFrom(crc, [], file, k);
  }

  // ----- what is on disk -----

  /** The records of the files with index below n, in index order. */
  function LogRecords(crc: Checksum, files: map<nat, seq<Byte>>, n: nat): seq<Record> {
    if n == 0 then []
    else LogRecords(crc, files, n - 1) + (if n - 1 in files then Records(crc, files[n - 1]) else [])
  }

  ghost function DiskLog(crc: Checksum, files: map<nat, seq<Byte>>): seq<Record> {
    LogRecords(crc, files, MaxIndex(files.Keys) + 1)
  }

  /** Each segment's file with its buffer appended: what would be on disk after a sync. */
  function WrittenOf(w: Log): map<nat, seq<Byte>> {
    map i | i in w.segs :: w.segs[i].Written()
  }

  ghost function WrittenRecords(crc: Checksum, w: Log): seq<Record> {
    DiskLog(crc, WrittenOf(w))
  }

  lemma {:induction false} LogRecordsFrame(crc: Checksum, a: map<nat, seq<Byte>>, b: map<nat, seq<Byte>>, n: nat)
    requires forall i :: i < n ==> (i in a <==> i in b) && (i in a ==> a[i] == b[i])
    ensures LogRecords(crc, a, n) == LogRecords(crc, b, n)
  {
    hide Records;
    if n > 0 {
      LogRecordsFrame(crc, a, b, n - 1);
    }
  }

  lemma {:induction false} LogRecordsGap(crc: Checksum, files: map<nat, seq<Byte>>, low: nat, high: nat)
    requires low <= high && forall i :: low <= i < high ==> i !in files
    ensures LogRecords(crc, files, high) == LogRecords(crc, files, low)
  {
    hide Records;
    if low < high {
      LogRecordsGap(crc, files, low, high - 1);
    }
  }

  lemma DiskLogUpTo(crc: Checksum, files: map<nat, seq<Byte>>, n: nat)
    requires forall i :: i in files ==> i < n
    ensures DiskLog(crc, files) == LogRecords(crc, files, n)
  {
    var m := MaxIndex(files.Keys);
    if m < n {
      LogRecordsGap(crc, files, m + 1, n);
    } else {
      LogRecordsGap(crc, files, n, m + 1);
    }
  }

  /** Growing the newest file appends to the log. */
  lemma GrowNewest(crc: Checksum, files: map<nat, seq<Byte>>, cur: nat, more: seq<Byte>)
    requires cur in files && cur == MaxIndex(files.Keys) && Terminated(files[cur])
    ensures DiskLog(crc, files[cur := files[cur] + more]) == DiskLog(crc, files) + Records(crc, more)
  {
    hide Records;
    var grown := files[cur := files[cur] + more];
    DiskLogUpTo(crc, grown, cur + 1);
    LogRecordsFrame(crc, files, grown, cur);
    RecordsConcat(crc, files[cur], more);
    Associate(LogRecords(crc, files, cur), Records(crc, files[cur]), Records(crc, more));
  }

  lemma AddNewest(crc: Checksum, files: map<nat, seq<Byte>>, idx: nat, bytes: seq<Byte>)
    requires forall i :: i in files ==> i < idx
    ensures DiskLog(crc, files[idx := bytes]) == DiskLog(crc, files) + Records(crc, bytes)
  {
    hide Records;
    var more := files[idx := bytes];
    DiskLogUpTo(crc, more, idx + 1);
    DiskLogUpTo(crc, files, idx);
    LogRecordsFrame(crc, files, more, idx);
  }

  lemma {:induction false} LogRecordsMember(crc: Checksum, files: map<nat, seq<Byte>>, n: nat, r: Record)
    ensures r in LogRecords(crc, files, n) <==> exists i :: i < n && i in files && r in Records(crc, files[i])
  {
    hide Records;
    if n > 0 {
      LogRecordsMember(crc, files, n - 1, r);
    }
  }

  lemma DiskLogMember(crc: Checksum, files: map<nat, seq<Byte>>, r: Record)
    ensures r in DiskLog(crc, files) <==> exists i :: i in files && r in Records(crc, files[i])
  {
    hide Records;
    LogRecordsMember(crc, files, MaxIndex(files.Keys) + 1, r);
  }

  /** Files agreeing above `from` give the same log above `from`. */
  lemma {:induction false} LogRecordsAbove(crc: Checksum, a: map<nat, seq<Byte>>, b: map<nat, seq<Byte>>, n: nat,
                                           from: nat)
    requires forall i: nat :: i < n ==> FileAbove(crc, a, i, from) == FileAbove(crc, b, i, from)
    ensures FromSeq(LogRecords(crc, a, n), from) == FromSeq(LogRecords(crc, b, n), from)
  {
    hide Records;
    if n > 0 {
      LogRecordsAbove(crc, a, b, n - 1, from);
      var ra := if n - 1 in a then Records(crc, a[n - 1]) else [];
      var rb := if n - 1 in b then Records(crc, b[n - 1]) else [];
      FilterConcat(AtLeast(from), LogRecords(crc, a, n - 1), ra);
      FilterConcat(AtLeast(from), LogRecords(crc, b, n - 1), rb);
      assert FileAbove(crc, a, n - 1, from) == FileAbove(crc, b, n - 1, from);
    }
  }

  function FileAbove(crc: Checksum, files: map<nat, seq<Byte>>, i: nat, from: nat): seq<Record> {
    FromSeq(if i in files then Records(crc, files[i]) else [], from)
  }

  lemma DiskLogAbove(crc: Checksum, a: map<nat, seq<Byte>>, b: map<nat, seq<Byte>>, from: nat)
    requires forall i: nat :: FileAbove(crc, a, i, from) == FileAbove(crc, b, i, from)
    ensures FromSeq(DiskLog(crc, a), from) == FromSeq(DiskLog(crc, b), from)
  {
    hide Records;
    var n := MaxIndex(a.Keys) + MaxIndex(b.Keys) + 1;
    DiskLogUpTo(crc, a, n);
    DiskLogUpTo(crc, b, n);
    LogRecordsAbove(crc, a, b, n, from);
  }

  // ----- replay is a filter -----

  /** `last` is at or above every sequence number in the file. */
  ghost predicate LastsBound(crc: Checksum, w: Log) {
    forall i, r :: i in w.segs && r in Records(crc, w.segs[i].file) ==> r.seqNo <= w.segs[i].last
  }

  lemma {:induction false} ReplayFilters(crc: Checksum, w: Log, n: nat, from: nat)
    requires LastsBound(crc, w)
    ensures ReplayUpTo(crc, w.segs, n, from) == FromSeq(LogRecords(crc, FilesOf(w), n), from)
  {
    hide Records;
    if n > 0 {
      ReplayFilters(crc, w, n - 1, from);
      var files := FilesOf(w);
      if n - 1 in files {
        FilterConcat(AtLeast(from), LogRecords(crc, files, n - 1), Records(crc, files[n - 1]));
        if w.segs[n - 1].last < from {
          FilterNone(AtLeast(from), Records(crc, files[n - 1]));
        }
      } else {
        assert LogRecords(crc, files, n) == LogRecords(crc, files, n - 1);
      }
    }
  }

  /** `Replay(from)` visits exactly the decodable records on disk with Seq >= from, in order:
      skipping whole segments by their `last` skips nothing. */
  lemma ReplayIsFilter(crc: Checksum, w: Log, from: nat)
    requires LastsBound(crc, w)
    ensures ReplayLog(crc, w, from) == FromSeq(DiskLog(crc, FilesOf(w)), from)
  {
    hide Records;
    assert FilesOf(w).Keys == w.segs.Keys;
    ReplayFilters(crc, w, Current(w) + 1, from);
  }

  lemma {:induction false} LastOfBounds(recs: seq<Record>, r: Record)
    requires r in recs
    ensures r.seqNo <= LastOf(recs)
  {
    var n := |recs| - 1;
    if recs[n] != r {
      assert recs == recs[..n] + [recs[n]];
      LastOfBounds(recs[..n], r);
    }
  }

  lemma {:induction false} LastOfWithin(recs: seq<Record>, bound: nat)
    requires forall r :: r in recs ==> r.seqNo <= bound
    ensures LastOf(recs) <= bound
  {
    if recs != [] {
      LastOfWithin(recs[..|recs| - 1], bound);
    }
  }

  lemma OpenSegBound(crc: Checksum, file: seq<Byte>, r: Record)
    requires r in Records(crc, file)
    ensures r.seqNo <= OpenSeg(crc, file).last
  {
    hide Records;
    LastOfBounds(Records(crc, file), r);
  }

  // ----- truncation -----

  /** The segment files `TruncateTo` leaves, before the current one is rewritten. */
  ghost function KeptBy(w: Log, upTo: U64): Log {
    w.(segs := Above(w.segs, upTo + 1))
  }

  /** The current file's records that `TruncateTo` has to keep. */
  ghost function MustKeep(crc: Checksum, w: Log, upTo: U64): seq<Record> {
    var kept := KeptBy(w, upTo);
    if HasCurrent(kept) then
      CurrentExists(kept);
      Scan(crc, kept.segs[Current(kept)].file, upTo + 1)
    else []
  }

  lemma DroppedHoldsNothing(crc: Checksum, w: Log, low: nat, from: nat, i: nat)
    requires LastsBound(crc, w) && low <= from
    requires i in w.segs && w.segs[i].last < low
    ensures FromSeq(Records(crc, w.segs[i].file), from) == []
  {
    hide Records;
    FilterNone(AtLeast(from), Records(crc, w.segs[i].file));
  }

  lemma FreshHoldsNothing(crc: Checksum)
    ensures OpenSeg(crc, []).file == [] && Records(crc, []) == []
    ensures OpenSeg(crc, []).last == 0 && OpenSeg(crc, []).buf == []
  {
    NothingToScan(crc);
  }

  lemma AboveHoldsAll(crc: Checksum, w: Log, low: nat, from: nat, i: nat)
    requires LastsBound(crc, w) && low <= from
    ensures FileAbove(crc, FilesOf(w.(segs := OrFresh(crc, Above(w.segs, low)))), i, from)
         == FileAbove(crc, FilesOf(w), i, from)
    ensures FileAbove(crc, FilesOf(w.(segs := Above(w.segs, low))), i, from) == FileAbove(crc, FilesOf(w), i, from)
  {
    hide Records, OpenSeg;
    FreshHoldsNothing(crc);
    if i in w.segs && w.segs[i].last < low {
      DroppedHoldsNothing(crc, w, low, from, i);
    }
  }

  /** Deleting whole segments keeps every replay at or above the bound. */
  lemma TruncateBeforeKeepsReplay(crc: Checksum, w: Log, low: U64, from: nat)
    requires LastsBound(crc, w) && low <= from
    ensures LastsBound(crc, TruncateBeforeLog(crc, w, low))
    ensures ReplayLog(crc, TruncateBeforeLog(crc, w, low), from) == ReplayLog(crc, w, from)
  {
    hide Records, OpenSeg;
    var w' := TruncateBeforeLog(crc, w, low);
    FreshHoldsNothing(crc);
    forall i ensures FileAbove(crc, FilesOf(w'), i, from) == FileAbove(crc, FilesOf(w), i, from) {
      AboveHoldsAll(crc, w, low, from, i);
    }
    DiskLogAbove(crc, FilesOf(w'), FilesOf(w), from);
    ReplayIsFilter(crc, w, from);
    ReplayIsFilter(crc, w', from);
  }

  lemma RewriteIsOpen(crc: Checksum, w: Log, upTo: U64)
    requires HasCurrent(KeptBy(w, upTo))
    ensures Current(KeptBy(w, upTo)) in KeptBy(w, upTo).segs
    ensures (var kept := KeptBy(w, upTo);
             var cur := Current(kept);
             && TruncateToLog(crc, w, upTo)
                == kept.(segs := kept.segs[cur := OpenSeg(crc, EncodeAll(crc, MustKeep(crc, w, upTo)))])
             && FilesOf(TruncateToLog(crc, w, upTo)) == FilesOf(kept)[cur := EncodeAll(crc, MustKeep(crc, w, upTo))])
  {
    hide Scan, EncodeAll, Records;
    var kept := KeptBy(w, upTo);
    CurrentExists(kept);
    assert kept.segs[Current(kept)].last >= upTo + 1;
    assert Inc64(upTo) == upTo + 1;
  }

  lemma TruncateToKeepsBound(crc: Checksum, w: Log, upTo: U64)
    requires LastsBound(crc, w)
    ensures LastsBound(crc, KeptBy(w, upTo)) && LastsBound(crc, TruncateToLog(crc, w, upTo))
  {
    hide Records, EncodeAll;
    var w' := TruncateToLog(crc, w, upTo);
    FreshHoldsNothing(crc);
    if HasCurrent(KeptBy(w, upTo)) {
      RewriteIsOpen(crc, w, upTo);
      var bytes := EncodeAll(crc, MustKeep(crc, w, upTo));
      forall r | r in Records(crc, bytes) ensures r.seqNo <= OpenSeg(crc, bytes).last {
        OpenSegBound(crc, bytes, r);
      }
    }
  }

  /** The log with its newest file singled out. */
  lemma SplitNewest(crc: Checksum, files: map<nat, seq<Byte>>, cur: nat, from: nat)
    requires cur in files && cur == MaxIndex(files.Keys)
    ensures FromSeq(DiskLog(crc, files), from)
         == FromSeq(LogRecords(crc, files, cur), from) + Scan(crc, files[cur], from)
  {
    hide Records;
    FilterConcat(AtLeast(from), LogRecords(crc, files, cur), Records(crc, files[cur]));
  }

  /** Replay before and after `TruncateTo` differ only in the rewritten records that are not
      newline-clean. */
  lemma TruncateToSplits(crc: Checksum, w: Log, upTo: U64, from: nat) returns (common: seq<Record>)
    requires LastsBound(crc, w) && upTo < from
    ensures ReplayLog(crc, w, from) == common + FromSeq(MustKeep(crc, w, upTo), from)
    ensures ReplayLog(crc, TruncateToLog(crc, w, upTo), from)
         == common + FromSeq(CleanOf(crc, MustKeep(crc, w, upTo)), from)
  {
    hide Records, EncodeAll, OpenSeg;
    var kept, w' := KeptBy(w, upTo), TruncateToLog(crc, w, upTo);
    TruncateToKeepsBound(crc, w, upTo);
    ReplayIsFilter(crc, w', from);
    ReplayIsFilter(crc, w, from);
    forall i ensures FileAbove(crc, FilesOf(kept), i, from) == FileAbove(crc, FilesOf(w), i, from) {
      AboveHoldsAll(crc, w, upTo + 1, from, i);
    }
    DiskLogAbove(crc, FilesOf(kept), FilesOf(w), from);
    if HasCurrent(kept) {
      common := TruncateToRewrites(crc, w, upTo, from);
    } else {
      common := [];
      EmptyDisk(crc, w', w);
      assert FilesOf(kept) == map[];
      EmptyLog(crc);
    }
  }

  lemma EmptyLog(crc: Checksum)
    ensures DiskLog(crc, map[]) == []
  {
    DiskLogUpTo(crc, map[], 0);
  }

  lemma EmptyDisk(crc: Checksum, w': Log, w: Log)
    requires w'.segs == OrFresh(crc, map[])
    ensures DiskLog(crc, FilesOf(w')) == []
  {
    hide Records;
    FreshHoldsNothing(crc);
    assert FilesOf(w') == map[][1 := []];
    AddNewest(crc, map[], 1, []);
    EmptyLog(crc);
  }

  lemma TruncateToRewrites(crc: Checksum, w: Log, upTo: U64, from: nat) returns (common: seq<Record>)
    requires HasCurrent(KeptBy(w, upTo)) && upTo < from
    ensures FromSeq(DiskLog(crc, FilesOf(KeptBy(w, upTo))), from) == common + FromSeq(MustKeep(crc, w, upTo), from)
    ensures FromSeq(DiskLog(crc, FilesOf(TruncateToLog(crc, w, upTo))), from)
         == common + FromSeq(CleanOf(crc, MustKeep(crc, w, upTo)), from)
  {
    hide Records, EncodeAll, OpenSeg;
    var kept, keep := KeptBy(w, upTo), MustKeep(crc, w, upTo);
    var cur := Current(kept);
    RewriteIsOpen(crc, w, upTo);
    var before, after := FilesOf(kept), FilesOf(TruncateToLog(crc, w, upTo));
    assert before.Keys == kept.segs.Keys == after.Keys;
    SplitNewest(crc, before, cur, from);
    SplitNewest(crc, after, cur, from);
    LogRecordsFrame(crc, before, after, cur);
    ScanFindsClean(crc, keep);
    FilterNarrows(AtLeast(upTo + 1), AtLeast(from), Records(crc, before[cur]));
    common := FromSeq(LogRecords(crc, before, cur), from);
  }

  /** `TruncateTo(seq)` leaves every replay from above seq as it was, across whole-segment
      deletion and the rewrite, exactly when the records it rewrites are newline-clean. */
  lemma TruncateToKeepsReplay(crc: Checksum, w: Log, upTo: U64)
    requires LastsBound(crc, w)
    ensures (forall from: nat :: from > upTo ==>
                                   ReplayLog(crc, TruncateToLog(crc, w, upTo), from) == ReplayLog(crc, w, from))
       <==> (forall r :: r in MustKeep(crc, w, upTo) ==> Clean(crc, r))
  {
    hide Records, MustKeep, TruncateToLog, ReplayLog, Clean;
    var keep, w' := MustKeep(crc, w, upTo), TruncateToLog(crc, w, upTo);
    if forall r :: r in keep ==> Clean(crc, r) {
      FilterAll(IsClean(crc), keep);
      forall from: nat | from > upTo ensures ReplayLog(crc, w', from) == ReplayLog(crc, w, from) {
        var common := TruncateToSplits(crc, w, upTo, from);
      }
    }
    if ReplayLog(crc, w', upTo + 1) == ReplayLog(crc, w, upTo + 1) {
      var common := TruncateToSplits(crc, w, upTo, upTo + 1);
      SameTail(common, FromSeq(keep, upTo + 1), FromSeq(CleanOf(crc, keep), upTo + 1));
      MustKeepAbove(crc, w, upTo);
      forall r | r in keep ensures Clean(crc, r) {
        FilterMember(AtLeast(upTo + 1), keep, r);
        FilterMember(AtLeast(upTo + 1), CleanOf(crc, keep), r);
        FilterMember(IsClean(crc), keep, r);
      }
    }
  }

  lemma SameTail<T>(a: seq<T>, b: seq<T>, c: seq<T>)
    requires a + b == a + c
    ensures b == c
  {
    assert (a + b)[|a|..] == b && (a + c)[|a|..] == c;
  }

  lemma MustKeepAbove(crc: Checksum, w: Log, upTo: U64)
    ensures forall r :: r in MustKeep(crc, w, upTo) ==> r.seqNo >= upTo + 1
  {
    hide Records;
    var kept := KeptBy(w, upTo);
    if HasCurrent(kept) {
      CurrentExists(kept);
      forall r | r in MustKeep(crc, w, upTo) ensures r.seqNo >= upTo + 1 {
        FilterMember(AtLeast(upTo + 1), Records(crc, kept.segs[Current(kept)].file), r);
      }
    }
  }
}
