/** The lifetime after a torn crash: a log whose newest file does not end in a newline. */
module TornLog {
  import opened Bytes
  import opened Model
  import opened Seqs
  import opened WalRecord
  import opened Wal
  import opened WalProperties
  import opened WalRuns
  import opened Recovery

  /** The current segment holds whole lines, and only it has a buffer. Nothing is asked of the
      older segments, nor of the numbers found in any. */
  ghost predicate Lined(w: Log) {
    && HasCurrent(w) && OnlyCurrentBuffers(w)
    && Current(w) in w.segs && Terminated(w.segs[Current(w)].Written())
    && w.segs[Current(w)].size == |w.segs[Current(w)].Written()|
  }

  /** What reopening after any crash leaves: nothing buffered, sizes as on disk, the current file
      perhaps torn. */
  ghost predicate Reopened(w: Log) {
    && HasCurrent(w) && Current(w) in w.segs
    && forall i :: i in w.segs ==> w.segs[i].buf == [] && w.segs[i].size == |w.segs[i].file|
  }

  lemma CrashLeavesReopened(crc: Checksum, w: Log)
    requires HasCurrent(w)
    ensures Reopened(Reopen(crc, w))
  {
    hide Records;
    var o, files := Reopen(crc, w), FilesOf(w);
    assert files.Keys == w.segs.Keys;
    CurrentExists(w);
    assert OpenAll(crc, files) != map[];
    CurrentExists(o);
  }

  // ----- appends to whole lines -----

  lemma FlushAll(w: Log)
    requires HasCurrent(w) && OnlyCurrentBuffers(w)
    ensures forall i :: i in SyncLog(w).segs ==> SyncLog(w).segs[i].buf == []
    ensures WrittenOf(SyncLog(w)) == WrittenOf(w) && SyncLog(w).nextSeq == w.nextSeq
  {
    SyncWritten(w);
    CurrentExists(w);
  }

  lemma RotateLined(crc: Checksum, w: Log)
    requires HasCurrent(w) && (forall i :: i in w.segs ==> w.segs[i].buf == [])
    ensures Lined(RotateLog(crc, w)) && WrittenRecords(crc, RotateLog(crc, w)) == WrittenRecords(crc, w)
  {
    hide Records, RotateLog, WrittenRecords, OpenSeg;
    RotateOpens(crc, w);
    RotateWritten(crc, w);
    OpenedSize(crc, []);
  }

  lemma SameWritten(crc: Checksum, a: Log, b: Log)
    requires WrittenOf(a) == WrittenOf(b)
    ensures WrittenRecords(crc, a) == WrittenRecords(crc, b)
  {
  }

  /** The next append starts a line: the current segment holds whole lines, or it is full and a new
      one is opened. */
  ghost predicate StartsLine(w: Log) {
    && HasCurrent(w) && OnlyCurrentBuffers(w) && Current(w) in w.segs
    && w.segs[Current(w)].size == |w.segs[Current(w)].Written()|
    && (Lined(w) || |w.segs[Current(w)].Written()| >= w.maxSize)
  }

  /** A full current segment makes room for whole lines, whatever it ends in. */
  lemma MakeRoomLined(crc: Checksum, w: Log)
    requires StartsLine(w)
    ensures Lined(MakeRoomLog(crc, w)) && WrittenRecords(crc, MakeRoomLog(crc, w)) == WrittenRecords(crc, w)
    ensures MakeRoomLog(crc, w).nextSeq == w.nextSeq
  {
    hide Records, OpenSeg, WrittenOf, WrittenRecords, RotateLog, SyncLog;
    if w.segs[Current(w)].size >= w.maxSize {
      FlushAll(w);
      RotateLined(crc, SyncLog(w));
      SameWritten(crc, SyncLog(w), w);
    }
  }

  /** Where the current segment holds whole lines, or is full, an append adds exactly its record, if
      that is clean, whatever numbers are there. */
  lemma AppendLined(crc: Checksum, w: Log, rec: Record)
    requires StartsLine(w) && w.nextSeq < MAX_U64
    ensures Lined(AppendLog(crc, w, rec)) && AppendLog(crc, w, rec).nextSeq == w.nextSeq + 1
    ensures WrittenRecords(crc, AppendLog(crc, w, rec))
         == WrittenRecords(crc, w) + CleanOf(crc, [rec.(seqNo := w.nextSeq)])
  {
    hide Records, Encode, WriteSeg, MakeRoomLog, WrittenRecords;
    MakeRoomLined(crc, w);
    var base, r := MakeRoomLog(crc, w), rec.(seqNo := w.nextSeq);
    WriteGrows(crc, base, r);
    WriteLined(crc, base, r);
  }

  lemma WriteLined(crc: Checksum, base: Log, r: Record)
    requires HasCurrent(base) && OnlyCurrentBuffers(base) && Current(base) in base.segs && base.nextSeq < MAX_U64
    requires base.segs[Current(base)].size == |base.segs[Current(base)].Written()|
    ensures Lined(base.(segs := base.segs[Current(base) := WriteSeg(crc, base.segs[Current(base)], r)],
                  nextSeq := base.nextSeq + 1))
  {
    hide Records, Encode, WriteSeg;
    var cur := Current(base);
    var segs := base.segs[cur := WriteSeg(crc, base.segs[cur], r)];
    WriteSegWritten(crc, base.segs[cur], r);
    EncodeTerminated(crc, r);
    assert segs.Keys == base.segs.Keys && cur in segs;
    LastByte(base.segs[cur].Written(), Encode(crc, r));
  }

  lemma LastByte(a: seq<Byte>, b: seq<Byte>)
    requires b != [] && Terminated(b)
    ensures Terminated(a + b)
  {
  }

  /** The records some appends write, numbered from n on. */
  function NumberFrom(recs: seq<Record>, n: nat): (r: seq<Record>)
    requires n + |recs| <= MAX_U64
    ensures |r| == |recs|
  {
    seq(|recs|, i requires 0 <= i < |recs| => recs[i].(seqNo := n + i))
  }

  ghost function AppendAll(crc: Checksum, w: Log, recs: seq<Record>): (r: Log)
    requires HasCurrent(w)
    ensures HasCurrent(r)
    decreases |recs|
  {
    if recs == [] then w else AppendAll(crc, AppendLog(crc, w, recs[0]), recs[1..])
  }

  lemma NumberFirst(first: Record, more: seq<Record>, n: nat)
    requires n + 1 + |more| <= MAX_U64
    ensures NumberFrom([first] + more, n) == [first.(seqNo := n)] + NumberFrom(more, n + 1)
  {
  }

  lemma NoneClean(crc: Checksum, n: nat)
    requires n <= MAX_U64
    ensures CleanOf(crc, NumberFrom([], n)) == []
  {
  }

  lemma CleanOfConcat(crc: Checksum, a: seq<Record>, b: seq<Record>)
    ensures CleanOf(crc, a + b) == CleanOf(crc, a) + CleanOf(crc, b)
  {
    FilterConcat(IsClean(crc), a, b);
  }

  lemma LinedStarts(w: Log)
    requires Lined(w)
    ensures StartsLine(w)
  {
  }

  lemma {:induction false} AppendAllLined(crc: Checksum, w: Log, recs: seq<Record>)
    requires StartsLine(w) && w.nextSeq + |recs| <= MAX_U64
    ensures StartsLine(AppendAll(crc, w, recs)) && (recs == [] || Lined(AppendAll(crc, w, recs)))
    ensures WrittenRecords(crc, AppendAll(crc, w, recs))
         == WrittenRecords(crc, w) + CleanOf(crc, NumberFrom(recs, w.nextSeq))
    decreases |recs|
  {
    hide Records, CleanOf, AppendLog, WrittenRecords, Lined, NumberFrom;
    NoneClean(crc, w.nextSeq);
    if recs != [] {
      var r := recs[0].(seqNo := w.nextSeq);
      AppendLined(crc, w, recs[0]);
      LinedStarts(AppendLog(crc, w, recs[0]));
      AppendAllLined(crc, AppendLog(crc, w, recs[0]), recs[1..]);
      assert recs == [recs[0]] + recs[1..];
      NumberFirst(recs[0], recs[1..], w.nextSeq);
      CleanOfConcat(crc, [r], NumberFrom(recs[1..], w.nextSeq + 1));
      Associate(WrittenRecords(crc, w), CleanOf(crc, [r]), CleanOf(crc, NumberFrom(recs[1..], w.nextSeq + 1)));
    }
  }

  // ----- appends that are never synced -----

  /** Only whole buffers reach the file, and the last byte written never does without a sync. */
  ghost predicate WholeBuffers(s: Seg) {
    |s.file| % 65536 == 0 && |s.buf| <= 65536 && (s.buf == [] ==> s.file == [])
  }

  lemma WriteWholeBuffers(crc: Checksum, s: Seg, r: Record)
    requires WholeBuffers(s)
    ensures WholeBuffers(WriteSeg(crc, s, r))
  {
    hide Encode;
  }

  lemma {:induction false} UnsyncedAppends(crc: Checksum, w: Log, s: Seg, recs: seq<Record>)
    requires w.segs == map[1 := s] && s.size == |s.Written()| && WholeBuffers(s)
    requires s.size + 37 * |recs| <= w.maxSize
    ensures HasCurrent(w)
    ensures (var a := AppendAll(crc, w, recs).segs;
             && a.Keys == {1} && WholeBuffers(a[1]) && |a[1].Written()| == |s.Written()| + 37 * |recs|)
    decreases |recs|
  {
    hide Encode, WriteSeg, WholeBuffers;
    assert 1 in w.segs;
    MaxIndexIs(w.segs.Keys, 1);
    if recs != [] {
      var r := recs[0].(seqNo := w.nextSeq);
      WriteWholeBuffers(crc, s, r);
      WriteSegWritten(crc, s, r);
      assert map[1 := s][1 := WriteSeg(crc, s, r)] == map[1 := WriteSeg(crc, s, r)];
      UnsyncedAppends(crc, AppendLog(crc, w, recs[0]), WriteSeg(crc, s, r), recs[1..]);
    }
  }

  /** Appends to a fresh log that are never synced: a crash loses all of them if and only if together
      they fit the write buffer, and otherwise leaves whole buffers of them. */
  lemma UnsyncedLost(crc: Checksum, maxSize: int, recs: seq<Record>)
    requires 37 * |recs| <= maxSize
    ensures HasCurrent(OpenLog(crc, map[], None, maxSize))
    ensures (var w := AppendAll(crc, OpenLog(crc, map[], None, maxSize), recs);
             && FilesOf(w).Keys == {1} && |FilesOf(w)[1]| % 65536 == 0
             && (FilesOf(w)[1] == [] <==> 37 * |recs| <= 65536))
  {
    hide Records, Encode, OpenSeg, OpenLog, AppendAll;
    FreshLog(crc, maxSize);
    FreshOpens(crc, maxSize);
    UnsyncedAppends(crc, OpenLog(crc, map[], None, maxSize), OpenSeg(crc, []), recs);
  }

  // ----- the first append behind a tear -----

  /** A file up to its last newline, and what follows it. */
  lemma SplitTear(b: seq<Byte>) returns (whole: seq<Byte>, tear: seq<Byte>)
    ensures b == whole + tear && Terminated(whole) && NEWLINE !in tear
    ensures Terminated(b) ==> tear == []
  {
    var n := |b|;
    while n > 0 && b[n - 1] != NEWLINE
      invariant 0 <= n <= |b| && NEWLINE !in b[n..]
    {
      assert b[n - 1..] == [b[n - 1]] + b[n..];
      n := n - 1;
    }
    whole, tear := b[..n], b[n..];
  }

  /** However long the tear, together with the next record it yields at most one record. */
  lemma TearMerges(crc: Checksum, tear: seq<Byte>, r: Record)
    requires NEWLINE !in tear
    ensures |Records(crc, tear + Encode(crc, r))| <= 1
  {
    hide Encode, Records;
    var e := EncodedEnd(crc, r);
    var j := FirstNewline(e);
    var line, rest := tear + e[..j], e[j + 1..];
    assert tear + e == (line + [NEWLINE]) + rest;
    RecordsConcat(crc, line + [NEWLINE], rest);
    assert Terminated(rest);
    TooShortForRecord(crc, rest);
    if line == [] {
      TooShortForRecord(crc, line + [NEWLINE]);
    } else {
      RecordsOfLine(crc, line, [NEWLINE]);
      OneAtMost(crc, line);
    }
  }

  lemma EncodedEnd(crc: Checksum, r: Record) returns (e: seq<Byte>)
    ensures e == Encode(crc, r) && |e| == FRAME_SIZE + 1 && e[FRAME_SIZE] == NEWLINE && NEWLINE in e
  {
    e := Encode(crc, r);
    assert e[FRAME_SIZE] == NEWLINE;
  }

  lemma OneAtMost(crc: Checksum, line: seq<Byte>)
    ensures |OfLine(crc, line)| <= 1
  {
  }

  /** A file up to its last newline. */
  function WholeLines(b: seq<Byte>): seq<Byte> {
    if b == [] || b[|b| - 1] == NEWLINE then b else WholeLines(b[..|b| - 1])
  }

  lemma {:induction false} WholeLinesAre(b: seq<Byte>, whole: seq<Byte>, tear: seq<Byte>)
    requires b == whole + tear && Terminated(whole) && NEWLINE !in tear
    ensures WholeLines(b) == whole
    decreases |tear|
  {
    if tear == [] {
      assert b == whole;
    } else {
      var n := |tear| - 1;
      assert b[..|b| - 1] == whole + tear[..n];
      assert b[|b| - 1] == tear[n];
      WholeLinesAre(b[..|b| - 1], whole, tear[..n]);
    }
  }

  /** Everything on disk in whole lines. */
  ghost function WholeLineRecords(crc: Checksum, w: Log): seq<Record>
    requires Current(w) in w.segs
  {
    DiskLog(crc, WrittenOf(w)[Current(w) := WholeLines(w.segs[Current(w)].file)])
  }

  ghost function WriteCurrent(crc: Checksum, w: Log, r: Record): Log
    requires Current(w) in w.segs && w.nextSeq < MAX_U64
  {
    w.(segs := w.segs[Current(w) := WriteSeg(crc, w.segs[Current(w)], r)], nextSeq := w.nextSeq + 1)
  }

  lemma WriteShows(crc: Checksum, w: Log, r: Record, whole: seq<Byte>, tear: seq<Byte>)
    requires Reopened(w) && w.nextSeq < MAX_U64 && w.segs[Current(w)].file == whole + tear
    ensures WrittenOf(WriteCurrent(crc, w, r)) == WrittenOf(w)[Current(w) := whole + (tear + Encode(crc, r))]
  {
    hide Encode, WriteSeg;
    var s := w.segs[Current(w)];
    WriteSegWritten(crc, s, r);
    assert s.Written() == whole + tear;
    assert whole + tear + Encode(crc, r) == whole + (tear + Encode(crc, r));
  }

  lemma ReplaceNewest(crc: Checksum, files: map<nat, seq<Byte>>, cur: nat, whole: seq<Byte>, more: seq<Byte>)
    requires cur in files && cur == MaxIndex(files.Keys) && Terminated(whole)
    ensures DiskLog(crc, files[cur := whole + more]) == DiskLog(crc, files[cur := whole]) + Records(crc, more)
  {
    hide Records, DiskLog;
    var before := files[cur := whole];
    assert before.Keys == files.Keys;
    GrowNewest(crc, before, cur, more);
    assert before[cur := before[cur] + more] == files[cur := whole + more];
  }

  lemma WriteBehindTear(crc: Checksum, w: Log, r: Record) returns (middle: seq<Record>)
    requires Reopened(w) && w.nextSeq < MAX_U64
    ensures |middle| <= 1
    ensures WrittenRecords(crc, WriteCurrent(crc, w, r)) == WholeLineRecords(crc, w) + middle
  {
    hide Records, Encode, WriteCurrent, DiskLog, WrittenOf, WholeLines;
    var cur, file := Current(w), w.segs[Current(w)].file;
    var whole, tear := SplitTear(file);
    WholeLinesAre(file, whole, tear);
    TearMerges(crc, tear, r);
    middle := Records(crc, tear + Encode(crc, r));
    WriteShows(crc, w, r, whole, tear);
    WrittenKeys(w);
    ReplaceNewest(crc, WrittenOf(w), cur, whole, tear + Encode(crc, r));
  }

  lemma WrittenKeys(w: Log)
    ensures WrittenOf(w).Keys == w.segs.Keys
  {
  }

  /** Appends behind a tear: the first may be lost in it, of the later ones exactly the clean are found. */
  lemma AppendsTorn(crc: Checksum, w: Log, first: Record, more: seq<Record>) returns (middle: seq<Record>)
    requires Reopened(w) && w.nextSeq + 1 + |more| <= MAX_U64
    requires |w.segs[Current(w)].file| < w.maxSize
    ensures |middle| <= 1
    ensures Lined(AppendAll(crc, AppendLog(crc, w, first), more))
    ensures WrittenRecords(crc, AppendAll(crc, AppendLog(crc, w, first), more))
         == WholeLineRecords(crc, w) + middle + CleanOf(crc, NumberFrom(more, w.nextSeq + 1))
  {
    hide Records, Encode, WrittenRecords, WholeLineRecords, Clean, WriteSeg, Terminated, WrittenOf, RotateLog,
      SyncLog, Lined, NumberFrom, CleanOf;
    var r := first.(seqNo := w.nextSeq);
    middle := WriteBehindTear(crc, w, r);
    assert w.segs[Current(w)].file + [] == w.segs[Current(w)].file;
    WriteLined(crc, w, r);
    LinedStarts(AppendLog(crc, w, first));
    AppendAllLined(crc, AppendLog(crc, w, first), more);
  }

  /** Appending after a crash, to a log whose current file may be torn: everything in whole lines
      stays, the torn bytes and the first record together yield at most one record, and of all later
      appends exactly the clean ones are found. If the file was not torn, or is full so that a new
      segment is opened, the first append is no exception. */
  lemma AppendsAfterCrash(crc: Checksum, w: Log, first: Record, more: seq<Record>) returns (middle: seq<Record>)
    requires Reopened(w) && w.nextSeq + 1 + |more| <= MAX_U64
    ensures |middle| <= 1
    ensures Lined(AppendAll(crc, AppendLog(crc, w, first), more))
    ensures (var cur, all := w.segs[Current(w)], AppendAll(crc, AppendLog(crc, w, first), more);
             WrittenRecords(crc, all)
             == if Terminated(cur.file) || |cur.file| >= w.maxSize then
               WrittenRecords(crc, w) + CleanOf(crc, NumberFrom([first] + more, w.nextSeq))
             else
               WholeLineRecords(crc, w) + middle + CleanOf(crc, NumberFrom(more, w.nextSeq + 1)))
  {
    hide Records, WrittenRecords, WholeLineRecords, Clean, Terminated, WrittenOf, AppendLog, Lined, NumberFrom,
      CleanOf, AppendAll;
    var cur := w.segs[Current(w)];
    middle := [];
    if Terminated(cur.file) || |cur.file| >= w.maxSize {
      ReopenedStarts(w);
      AppendAllLined(crc, w, [first] + more);
      AppendAllFirst(crc, w, first, more);
    } else {
      middle := AppendsTorn(crc, w, first, more);
    }
  }

  lemma ReopenedStarts(w: Log)
    requires Reopened(w)
    requires Terminated(w.segs[Current(w)].file) || |w.segs[Current(w)].file| >= w.maxSize
    ensures StartsLine(w)
  {
    assert w.segs[Current(w)].file + [] == w.segs[Current(w)].file;
  }

  lemma AppendAllFirst(crc: Checksum, w: Log, first: Record, more: seq<Record>)
    requires HasCurrent(w)
    ensures AppendAll(crc, w, [first] + more) == AppendAll(crc, AppendLog(crc, w, first), more)
  {
    hide AppendLog;
  }

  // ----- a log that has crashed -----

  lemma {:induction false} WholeLinesPrefix(b: seq<Byte>)
    ensures WholeLines(b) <= b
  {
    if b != [] && b[|b| - 1] != NEWLINE { WholeLinesPrefix(b[..|b| - 1]); }
  }

  /** Cutting the newest file short cuts the log short. */
  lemma CutNewest(crc: Checksum, files: map<nat, seq<Byte>>, cur: nat, b: seq<Byte>)
    requires cur in files && cur == MaxIndex(files.Keys) && b <= files[cur]
    ensures DiskLog(crc, files[cur := b]) <= DiskLog(crc, files)
  {
    hide Records;
    var cut := files[cur := b];
    assert cut.Keys == files.Keys;
    LogRecordsFrame(crc, cut, files, cur);
    assert files[cur][..|b|] == b;
    CrashAnywhere(crc, files[cur], |b|);
  }

  /** What a crash at any moment of a run leaves in whole lines was written, with nothing missing in
      between. */
  lemma CrashLeavesWholeLines(crc: Checksum, w: Log)
    requires LogInvariant(crc, w)
    ensures Reopened(Reopen(crc, w)) && WholeLineRecords(crc, Reopen(crc, w)) <= WrittenRecords(crc, w)
  {
    hide Records, DiskLog, SegmentInvariant;
    var o := Reopen(crc, w);
    var cur := Current(o);
    CrashLeavesReopened(crc, w);
    ReopenSegments(crc, w);
    SyncedFiles(o);
    WholeLinesPrefix(o.segs[cur].file);
    assert FilesOf(w).Keys == w.segs.Keys;
    CutNewest(crc, FilesOf(w), cur, WholeLines(o.segs[cur].file));
    CrashLeavesPrefix(crc, w);
  }

  /** The lifetime after a crash at any moment of a run: everything found in whole lines was written
      before, and appends go on behind it as after any reopening. */
  lemma LifeAfterCrash(crc: Checksum, w: Log, first: Record, more: seq<Record>) returns (middle: seq<Record>)
    requires LogInvariant(crc, w) && Reopen(crc, w).nextSeq + 1 + |more| <= MAX_U64
    ensures HasCurrent(Reopen(crc, w)) && Current(Reopen(crc, w)) in Reopen(crc, w).segs && |middle| <= 1
    ensures (var o := Reopen(crc, w);
             var cur, all := o.segs[Current(o)], AppendAll(crc, AppendLog(crc, o, first), more);
             && WholeLineRecords(crc, o) <= WrittenRecords(crc, w)
             && WrittenRecords(crc, all)
                == if Terminated(cur.file) || |cur.file| >= o.maxSize then
                     WrittenRecords(crc, o) + CleanOf(crc, NumberFrom([first] + more, o.nextSeq))
                   else
                     WholeLineRecords(crc, o) + middle + CleanOf(crc, NumberFrom(more, o.nextSeq + 1)))
  {
    hide LogInvariant, Records, WrittenRecords, WholeLineRecords, Clean, Terminated, AppendLog, AppendAll, NumberFrom,
      CleanOf, Reopen, Lined;
    CrashLeavesWholeLines(crc, w);
    middle := AppendsAfterCrash(crc, Reopen(crc, w), first, more);
  }
}
