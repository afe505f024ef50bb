/** Runs of the log within one lifetime: what every operation keeps. */
module WalRuns {
  import opened Bytes
  import opened Model
  import opened Seqs
  import opened WalRecord
  import opened Wal
  import opened WalProperties

  ghost predicate AscendingSeq(recs: seq<Record>) {
    forall i, j :: 0 <= i < j < |recs| ==> recs[i].seqNo < recs[j].seqNo
  }

  lemma AscendingConcat(a: seq<Record>, b: seq<Record>)
    ensures AscendingSeq(a + b) <==>
            && AscendingSeq(a) && AscendingSeq(b)
            && forall x, y :: x in a && y in b ==> x.seqNo < y.seqNo
  {
    if AscendingSeq(a + b) {
      forall i, j | 0 <= i < |a| && 0 <= j < |b| ensures a[i].seqNo < b[j].seqNo {
        assert (a + b)[i] == a[i] && (a + b)[|a| + j] == b[j];
      }
      assert forall i :: 0 <= i < |a| ==> (a + b)[i] == a[i];
      assert forall j :: 0 <= j < |b| ==> (a + b)[|a| + j] == b[j];
    }
  }

  lemma {:induction false} FilterAscends(keep: Record -> bool, recs: seq<Record>)
    requires AscendingSeq(recs)
    ensures AscendingSeq(Filter(keep, recs))
  {
    if recs != [] {
      FilterAscends(keep, recs[1..]);
      AscendingConcat(recs[..1], recs[1..]);
      assert recs[..1] + recs[1..] == recs;
      forall y | y in Filter(keep, recs[1..]) ensures recs[0].seqNo < y.seqNo {
        FilterMember(keep, recs[1..], y);
        assert recs[0] in recs[..1];
      }
      AscendingConcat(if keep(recs[0]) then [recs[0]] else [], Filter(keep, recs[1..]));
    }
  }

  /** One segment holds whole lines, its size is the number of bytes written to it, and `last` and
      `nextSeq` are above its records. */
  ghost predicate SegmentInvariant(crc: Checksum, s: Seg, nextSeq: nat) {
    && Terminated(s.Written()) && s.size == |s.Written()|
    && (forall r :: r in Records(crc, s.Written()) ==> r.seqNo <= s.last && r.seqNo < nextSeq)
    && (s.last < nextSeq || s.last == 0)
  }

  /** Only the current segment has unsynced bytes. */
  ghost predicate OnlyCurrentBuffers(w: Log) {
    forall i :: i in w.segs && i != Current(w) ==> w.segs[i].buf == []
  }

  ghost predicate Framed(crc: Checksum, w: Log) {
    && HasCurrent(w)
    && OnlyCurrentBuffers(w)
    && forall i :: i in w.segs ==> SegmentInvariant(crc, w.segs[i], w.nextSeq)
  }

  /** The invariant of a lifetime: the segments are framed, and decodable sequence numbers
      strictly ascend within and across segments in index order. */
  ghost predicate LogInvariant(crc: Checksum, w: Log) {
    Framed(crc, w) && AscendingSeq(WrittenRecords(crc, w))
  }

  lemma FilePrefix(crc: Checksum, s: Seg)
    ensures Records(crc, s.file) <= Records(crc, s.Written())
  {
    assert s.Written()[..|s.file|] == s.file;
    CrashAnywhere(crc, s.Written(), |s.file|);
  }

  lemma PrefixMember<T>(a: seq<T>, b: seq<T>, x: T)
    requires a <= b && x in a
    ensures x in b
  {
    var i :| 0 <= i < |a| && a[i] == x;
    assert b[i] == x;
  }

  lemma FramedBounds(crc: Checksum, w: Log)
    requires Framed(crc, w)
    ensures LastsBound(crc, w)
  {
    hide Records;
    forall i, r | i in w.segs && r in Records(crc, w.segs[i].file) ensures r.seqNo <= w.segs[i].last {
      FilePrefix(crc, w.segs[i]);
      PrefixMember(Records(crc, w.segs[i].file), Records(crc, w.segs[i].Written()), r);
    }
  }

  /** At any moment of a run, what a crash leaves on disk is a prefix of what was written. */
  lemma CrashLeavesPrefix(crc: Checksum, w: Log)
    requires HasCurrent(w) && OnlyCurrentBuffers(w)
    ensures DiskLog(crc, FilesOf(w)) <= WrittenRecords(crc, w)
  {
    hide Records;
    CurrentExists(w);
    var cur, files, written := Current(w), FilesOf(w), WrittenOf(w);
    assert files.Keys == w.segs.Keys == written.Keys;
    forall i | i in w.segs && i < cur ensures files[i] == written[i] {
      assert w.segs[i].buf == [];
    }
    LogRecordsFrame(crc, files, written, cur);
    FilePrefix(crc, w.segs[cur]);
  }

  /** `Replay` visits records in strictly ascending sequence order. */
  lemma ReplayAscends(crc: Checksum, w: Log, from: nat)
    requires LogInvariant(crc, w)
    ensures AscendingSeq(ReplayLog(crc, w, from))
    ensures ReplayLog(crc, w, from) == FromSeq(DiskLog(crc, FilesOf(w)), from)
  {
    hide Records;
    FramedBounds(crc, w);
    ReplayIsFilter(crc, w, from);
    CrashLeavesPrefix(crc, w);
    FilterAscends(AtLeast(from), DiskLog(crc, FilesOf(w)));
  }

  // ----- appending and syncing -----

  lemma WriteSegWritten(crc: Checksum, s: Seg, rec: Record)
    ensures WriteSeg(crc, s, rec).Written() == s.Written() + Encode(crc, rec)
    ensures WriteSeg(crc, s, rec).last == if rec.seqNo > s.last then rec.seqNo else s.last
    ensures WriteSeg(crc, s, rec).size == s.size + |Encode(crc, rec)|
  {
    hide Encode;
    var data := Encode(crc, rec);
    var pending := s.buf + data;
    assert s.file + pending == s.file + s.buf + data;
    if |pending| > BUFFER {
      assert (s.file + pending[..BUFFER]) + pending[BUFFER..] == s.file + pending;
    }
  }

  lemma SyncWritten(w: Log)
    requires HasCurrent(w)
    ensures HasCurrent(SyncLog(w)) && Current(SyncLog(w)) == Current(w)
    ensures WrittenOf(SyncLog(w)) == WrittenOf(w)
  {
    CurrentExists(w);
    var s := SyncLog(w);
    assert s.segs.Keys == w.segs.Keys;
    assert Current(w) in s.segs;
    forall i | i in w.segs ensures s.segs[i].Written() == w.segs[i].Written() {
      assert FlushSeg(w.segs[i]).Written() == w.segs[i].Written();
    }
  }

  /** After `Sync`, everything written is on disk. */
  lemma SyncedIsDurable(w: Log)
    requires HasCurrent(w) && OnlyCurrentBuffers(w)
    ensures FilesOf(SyncLog(w)) == WrittenOf(w)
  {
    CurrentExists(w);
    forall i | i in w.segs ensures SyncLog(w).segs[i].file == w.segs[i].Written() {
      if i != Current(w) { assert w.segs[i].file + [] == w.segs[i].file; }
    }
  }

  lemma SyncFramed(crc: Checksum, w: Log)
    requires Framed(crc, w)
    ensures Framed(crc, SyncLog(w))
    ensures WrittenRecords(crc, SyncLog(w)) == WrittenRecords(crc, w)
  {
    hide SegmentInvariant, Records;
    SyncWritten(w);
    CurrentExists(w);
    SegmentFlushed(crc, w.segs[Current(w)], w.nextSeq);
  }

  lemma SegmentFlushed(crc: Checksum, s: Seg, nextSeq: nat)
    requires SegmentInvariant(crc, s, nextSeq)
    ensures SegmentInvariant(crc, FlushSeg(s), nextSeq)
  {
    hide Records;
    assert FlushSeg(s).Written() == s.Written();
  }

  lemma OpenedSize(crc: Checksum, file: seq<Byte>)
    ensures OpenSeg(crc, file).size == |file| == |OpenSeg(crc, file).Written()|
  {
    hide Records;
  }

  lemma SegmentFresh(crc: Checksum, nextSeq: nat)
    ensures SegmentInvariant(crc, OpenSeg(crc, []), nextSeq)
    ensures OpenSeg(crc, []).Written() == []
  {
    hide Records, OpenSeg;
    FreshHoldsNothing(crc);
    OpenedSize(crc, []);
    assert OpenSeg(crc, []).Written() == [];
  }

  lemma SegmentLater(crc: Checksum, s: Seg, nextSeq: nat, later: nat)
    requires SegmentInvariant(crc, s, nextSeq) && nextSeq <= later
    ensures SegmentInvariant(crc, s, later)
  {
    hide Records;
  }

  lemma SegmentWritten(crc: Checksum, s: Seg, r: Record)
    requires SegmentInvariant(crc, s, r.seqNo)
    ensures SegmentInvariant(crc, WriteSeg(crc, s, r), r.seqNo + 1)
  {
    hide Records, Encode, WriteSeg;
    WriteSegWritten(crc, s, r);
    EncodeTerminated(crc, r);
    RecordsConcat(crc, s.Written(), Encode(crc, r));
    RecordsOfOne(crc, r);
    var w := WriteSeg(crc, s, r);
    forall x | x in Records(crc, w.Written()) ensures x.seqNo <= w.last && x.seqNo < r.seqNo + 1 {
      FilterMember(IsClean(crc), [r], x);
    }
  }

  lemma {:induction false} FirstOfIs(recs: seq<Record>)
    ensures forall r :: r in recs ==> FirstOf(recs) <= r.seqNo
    ensures FirstOf(recs) == MAX_U64 || exists r :: r in recs && r.seqNo == FirstOf(recs)
  {
    if recs != [] {
      var n := |recs| - 1;
      FirstOfIs(recs[..n]);
      assert recs == recs[..n] + [recs[n]];
      assert recs[n] in recs;
    }
  }

  /** The smallest number of a segment: on opening a file it is that of its records, 0 if there are none
      below the largest 64-bit number; a write lowers it, or sets it where it was 0. */
  lemma SmallestNumber(crc: Checksum, file: seq<Byte>, s: Seg, r: Record)
    ensures (var recs, first := Records(crc, file), OpenSeg(crc, file).first;
             if forall x :: x in recs ==> x.seqNo == MAX_U64 then first == 0
             else (forall x :: x in recs ==> first <= x.seqNo) && exists x :: x in recs && x.seqNo == first)
    ensures s.first == 0 ==> WriteSeg(crc, s, r).first == r.seqNo
    ensures s.first > 0 ==>
              (var first := WriteSeg(crc, s, r).first;
               first <= s.first && first <= r.seqNo && (first == s.first || first == r.seqNo))
  {
    hide Records, Encode;
    FirstOfIs(Records(crc, file));
  }

  lemma EncodeTerminated(crc: Checksum, r: Record)
    ensures Encode(crc, r) != [] && Terminated(Encode(crc, r))
  {
  }

  /** Rotation opens an empty segment with the next index. */
  lemma RotateOpens(crc: Checksum, w: Log)
    requires HasCurrent(w)
    ensures (var r, s := RotateLog(crc, w), OpenSeg(crc, []);
             && Current(r) == Current(w) + 1 && r.segs == w.segs[Current(w) + 1 := s] && r.nextSeq == w.nextSeq
             && s.Written() == [] && s.buf == [])
    ensures WrittenOf(RotateLog(crc, w)) == WrittenOf(w)[Current(w) + 1 := []]
    ensures forall i :: i in w.segs ==> i <= Current(w)
  {
    hide Records, OpenSeg;
    var r := RotateLog(crc, w);
    FreshHoldsNothing(crc);
    assert OpenSeg(crc, []).Written() == [];
    MaxIndexIs(r.segs.Keys, Current(w) + 1);
  }

  lemma RotateWritten(crc: Checksum, w: Log)
    requires HasCurrent(w)
    ensures WrittenRecords(crc, RotateLog(crc, w)) == WrittenRecords(crc, w)
  {
    hide Records, RotateLog, DiskLog, OpenSeg;
    FreshHoldsNothing(crc);
    RotateOpens(crc, w);
    AddNewest(crc, WrittenOf(w), Current(w) + 1, []);
  }

  lemma RotateFramed(crc: Checksum, w: Log)
    requires HasCurrent(w) && (forall i :: i in w.segs ==> w.segs[i].buf == [])
    requires forall i :: i in w.segs ==> SegmentInvariant(crc, w.segs[i], w.nextSeq)
    ensures Framed(crc, RotateLog(crc, w))
    ensures WrittenRecords(crc, RotateLog(crc, w)) == WrittenRecords(crc, w)
  {
    hide Records, OpenSeg, SegmentInvariant, RotateLog, WrittenRecords;
    SegmentFresh(crc, w.nextSeq);
    RotateOpens(crc, w);
    RotateWritten(crc, w);
  }

  lemma MakeRoomKeeps(crc: Checksum, w: Log)
    requires Framed(crc, w)
    ensures Framed(crc, MakeRoomLog(crc, w))
    ensures WrittenRecords(crc, MakeRoomLog(crc, w)) == WrittenRecords(crc, w)
    ensures MakeRoomLog(crc, w).(segs := w.segs) == w
  {
    hide Records, OpenSeg, SegmentInvariant, WrittenOf;
    CurrentExists(w);
    if w.segs[Current(w)].size >= w.maxSize {
      SyncFramed(crc, w);
      SyncWritten(w);
      var s := SyncLog(w);
      assert forall i :: i in s.segs ==> s.segs[i].buf == [];
      RotateFramed(crc, s);
    }
  }

  /** A record appended behind whole lines becomes the newest of the log, if it is newline-clean;
      otherwise the log is as if it had not been written. */
  lemma AppendWrites(crc: Checksum, w: Log, rec: Record)
    requires Framed(crc, w) && w.nextSeq < MAX_U64
    ensures Framed(crc, AppendLog(crc, w, rec))
    ensures WrittenRecords(crc, AppendLog(crc, w, rec))
         == WrittenRecords(crc, w) + CleanOf(crc, [rec.(seqNo := w.nextSeq)])
    ensures AppendLog(crc, w, rec) == w.(segs := AppendLog(crc, w, rec).segs, nextSeq := w.nextSeq + 1)
  {
    hide Records, Encode, WriteSeg, MakeRoomLog, SegmentInvariant, WrittenRecords;
    MakeRoomKeeps(crc, w);
    var base, r := MakeRoomLog(crc, w), rec.(seqNo := w.nextSeq);
    CurrentExists(base);
    WriteFramed(crc, base, r);
    WriteGrows(crc, base, r);
  }

  /** Where an append puts its record: behind what the current segment holds, as long as that is
      shorter than a segment may be, and otherwise into a new segment, before which everything in the
      full one goes to its file. */
  ghost predicate Places(crc: Checksum, w: Log, rec: Record, a: Log)
    requires Current(w) in w.segs
  {
    var cur, held, bytes := Current(w), w.segs[Current(w)].Written(), Encode(crc, rec.(seqNo := w.nextSeq));
    && (forall i :: i in w.segs && i != cur ==> i in a.segs && a.segs[i] == w.segs[i])
    && cur in a.segs
    && if |held| < w.maxSize then
         a.segs.Keys == w.segs.Keys && a.segs[cur].Written() == held + bytes
       else
         && a.segs.Keys == w.segs.Keys + {cur + 1} && cur + 1 !in w.segs
         && a.segs[cur].file == held == a.segs[cur].Written() && a.segs[cur + 1].Written() == bytes
  }

  lemma FullPlaces(crc: Checksum, w: Log, rec: Record)
    requires HasCurrent(w) && Current(w) in w.segs && w.segs[Current(w)].size >= w.maxSize
    requires |w.segs[Current(w)].Written()| >= w.maxSize
    ensures Places(crc, w, rec, AppendLog(crc, w, rec))
  {
    hide Records, Encode, WriteSeg, OpenSeg, RotateLog, SyncLog, WrittenOf;
    var synced, s := SyncLog(w), OpenSeg(crc, []);
    SyncedSegments(w);
    RotateOpens(crc, synced);
    WriteSegWritten(crc, s, rec.(seqNo := w.nextSeq));
    assert [] + Encode(crc, rec.(seqNo := w.nextSeq)) == Encode(crc, rec.(seqNo := w.nextSeq));
  }

  lemma SyncedSegments(w: Log)
    requires HasCurrent(w) && Current(w) in w.segs
    ensures (var a, cur := SyncLog(w), Current(w);
             && HasCurrent(a) && Current(a) == cur && a.segs.Keys == w.segs.Keys && a.maxSize == w.maxSize
             && a.nextSeq == w.nextSeq
             && (forall i :: i in w.segs && i != cur ==> a.segs[i] == w.segs[i])
             && a.segs[cur].file == w.segs[cur].Written() == a.segs[cur].Written())
  {
    hide Current;
    var s := FlushSeg(w.segs[Current(w)]);
    assert s.file + [] == s.file;
    assert SyncLog(w).segs.Keys == w.segs.Keys;
    SyncWritten(w);
  }

  lemma RoomPlaces(crc: Checksum, w: Log, rec: Record)
    requires HasCurrent(w) && Current(w) in w.segs && w.segs[Current(w)].size < w.maxSize
    requires |w.segs[Current(w)].Written()| < w.maxSize
    ensures Places(crc, w, rec, AppendLog(crc, w, rec))
  {
    hide Records, Encode, WriteSeg, OpenSeg;
    WriteSegWritten(crc, w.segs[Current(w)], rec.(seqNo := w.nextSeq));
  }

  /** At every moment of a lifetime. */
  lemma AppendPlaces(crc: Checksum, w: Log, rec: Record)
    requires Framed(crc, w)
    ensures Current(w) in w.segs && Places(crc, w, rec, AppendLog(crc, w, rec))
  {
    hide Places, AppendLog, Records;
    CurrentExists(w);
    assert SegmentInvariant(crc, w.segs[Current(w)], w.nextSeq);
    if |w.segs[Current(w)].Written()| < w.maxSize { RoomPlaces(crc, w, rec); } else { FullPlaces(crc, w, rec); }
  }

  /** And on whatever bytes a restart finds in the newest file. */
  lemma OpenedPlaces(crc: Checksum, w: Log, file: seq<Byte>, rec: Record)
    requires HasCurrent(w) && Current(w) in w.segs && w.segs[Current(w)] == OpenSeg(crc, file)
    ensures w.segs[Current(w)].Written() == file && Places(crc, w, rec, AppendLog(crc, w, rec))
  {
    hide Places, AppendLog, Records;
    OpenedSize(crc, file);
    assert file + [] == file;
    if |w.segs[Current(w)].Written()| < w.maxSize { RoomPlaces(crc, w, rec); } else { FullPlaces(crc, w, rec); }
  }

  lemma WriteGrows(crc: Checksum, base: Log, r: Record)
    requires HasCurrent(base) && Current(base) in base.segs
    requires Terminated(base.segs[Current(base)].Written())
    requires base.nextSeq < MAX_U64
    ensures WrittenRecords(crc, base.(segs := base.segs[Current(base) := WriteSeg(crc, base.segs[Current(base)], r)],
                           nextSeq := base.nextSeq + 1))
         == WrittenRecords(crc, base) + CleanOf(crc, [r])
  {
    hide Records, Encode, WriteSeg;
    var cur := Current(base);
    var w' := base.(segs := base.segs[cur := WriteSeg(crc, base.segs[cur], r)], nextSeq := base.nextSeq + 1);
    WriteSegWritten(crc, base.segs[cur], r);
    assert WrittenOf(base).Keys == base.segs.Keys;
    assert WrittenOf(w') == WrittenOf(base)[cur := WrittenOf(base)[cur] + Encode(crc, r)];
    GrowNewest(crc, WrittenOf(base), cur, Encode(crc, r));
    RecordsOfOne(crc, r);
  }

  lemma WriteFramed(crc: Checksum, base: Log, r: Record)
    requires Framed(crc, base) && Current(base) in base.segs && r.seqNo == base.nextSeq < MAX_U64
    ensures Terminated(base.segs[Current(base)].Written())
    ensures Framed(crc, base.(segs := base.segs[Current(base) := WriteSeg(crc, base.segs[Current(base)], r)],
                   nextSeq := base.nextSeq + 1))
  {
    hide Records, WriteSeg;
    var cur := Current(base);
    var w' := base.(segs := base.segs[cur := WriteSeg(crc, base.segs[cur], r)], nextSeq := base.nextSeq + 1);
    assert w'.segs.Keys == base.segs.Keys && cur in w'.segs;
    SegmentWritten(crc, base.segs[cur], r);
    forall i | i in w'.segs ensures SegmentInvariant(crc, w'.segs[i], w'.nextSeq) {
      if i != cur { SegmentLater(crc, base.segs[i], base.nextSeq, w'.nextSeq); }
    }
  }

  // ----- truncating -----

  lemma {:induction false} FileAscends(crc: Checksum, files: map<nat, seq<Byte>>, n: nat, i: nat)
    requires AscendingSeq(LogRecords(crc, files, n)) && i < n && i in files
    ensures AscendingSeq(Records(crc, files[i]))
  {
    hide Records;
    var newest := if n - 1 in files then Records(crc, files[n - 1]) else [];
    AscendingConcat(LogRecords(crc, files, n - 1), newest);
    if i < n - 1 {
      FileAscends(crc, files, n - 1, i);
    }
  }

  /** Files holding some of another log's records, each in ascending order, make an ascending log. */
  ghost predicate Thins(crc: Checksum, a: map<nat, seq<Byte>>, b: map<nat, seq<Byte>>) {
    forall i :: i in b ==>
                  && i in a && AscendingSeq(Records(crc, b[i]))
                  && forall r :: r in Records(crc, b[i]) ==> r in Records(crc, a[i])
  }

  lemma {:induction false} ThinnedAscends(crc: Checksum, a: map<nat, seq<Byte>>, b: map<nat, seq<Byte>>, n: nat)
    requires Thins(crc, a, b) && AscendingSeq(LogRecords(crc, a, n))
    ensures AscendingSeq(LogRecords(crc, b, n))
    ensures forall r :: r in LogRecords(crc, b, n) ==> r in LogRecords(crc, a, n)
  {
    hide Records;
    if n > 0 {
      var newestA := if n - 1 in a then Records(crc, a[n - 1]) else [];
      var newestB := if n - 1 in b then Records(crc, b[n - 1]) else [];
      AscendingConcat(LogRecords(crc, a, n - 1), newestA);
      ThinnedAscends(crc, a, b, n - 1);
      AscendingConcat(LogRecords(crc, b, n - 1), newestB);
    }
  }

  lemma ThinnedLog(crc: Checksum, a: Log, b: Log)
    requires Thins(crc, WrittenOf(a), WrittenOf(b)) && AscendingSeq(WrittenRecords(crc, a))
    ensures AscendingSeq(WrittenRecords(crc, b))
  {
    hide Records, Thins;
    var n := MaxIndex(WrittenOf(a).Keys) + MaxIndex(WrittenOf(b).Keys) + 1;
    DiskLogUpTo(crc, WrittenOf(a), n);
    DiskLogUpTo(crc, WrittenOf(b), n);
    ThinnedAscends(crc, WrittenOf(a), WrittenOf(b), n);
  }

  lemma WrittenFileAscends(crc: Checksum, w: Log, i: nat)
    requires AscendingSeq(WrittenRecords(crc, w)) && i in w.segs
    ensures AscendingSeq(Records(crc, w.segs[i].Written()))
  {
    hide Records;
    assert WrittenOf(w).Keys == w.segs.Keys;
    FileAscends(crc, WrittenOf(w), Current(w) + 1, i);
    assert WrittenOf(w)[i] == w.segs[i].Written();
  }

  lemma FreshInvariant(crc: Checksum, w: Log)
    requires w.segs == OrFresh(crc, map[])
    ensures LogInvariant(crc, w) && WrittenRecords(crc, w) == []
  {
    hide Records, SegmentInvariant, OpenSeg;
    SegmentFresh(crc, w.nextSeq);
    MaxIndexIs(w.segs.Keys, 1);
    FreshHoldsNothing(crc);
    assert WrittenOf(w) == map[][1 := []];
    AddNewest(crc, map[], 1, []);
    EmptyLog(crc);
  }

  /** Deleting segments keeps the invariant as long as some segment is left. */
  lemma AboveKeepsInvariant(crc: Checksum, w: Log, low: nat)
    requires LogInvariant(crc, w) && HasCurrent(w.(segs := Above(w.segs, low)))
    ensures LogInvariant(crc, w.(segs := Above(w.segs, low)))
  {
    hide Records, SegmentInvariant;
    var w' := w.(segs := Above(w.segs, low));
    CurrentExists(w');
    forall i | i in w'.segs && i != Current(w') ensures w'.segs[i].buf == [] {
      assert i < Current(w') <= Current(w);
    }
    forall i | i in w'.segs ensures AscendingSeq(Records(crc, w'.segs[i].Written())) {
      WrittenFileAscends(crc, w, i);
    }
    assert forall i :: i in w'.segs ==> WrittenOf(w')[i] == WrittenOf(w)[i];
    ThinnedLog(crc, w, w');
  }

  lemma TruncateBeforeInvariant(crc: Checksum, w: Log, low: U64)
    requires LogInvariant(crc, w)
    ensures LogInvariant(crc, TruncateBeforeLog(crc, w, low))
  {
    hide LogInvariant;
    if Above(w.segs, low) == map[] {
      FreshInvariant(crc, TruncateBeforeLog(crc, w, low));
    } else {
      AboveKeepsInvariant(crc, w, low);
    }
  }

  lemma MustKeepIsSome(crc: Checksum, w: Log, upTo: U64)
    requires LogInvariant(crc, w) && HasCurrent(KeptBy(w, upTo))
    ensures (var kept := KeptBy(w, upTo);
             && Current(kept) in kept.segs
             && AscendingSeq(MustKeep(crc, w, upTo))
             && forall r :: r in MustKeep(crc, w, upTo) ==> r in Records(crc, kept.segs[Current(kept)].Written()))
  {
    hide Records, SegmentInvariant;
    var kept := KeptBy(w, upTo);
    CurrentExists(kept);
    var seg := kept.segs[Current(kept)];
    FilePrefix(crc, seg);
    WrittenFileAscends(crc, w, Current(kept));
    PrefixAscends(Records(crc, seg.file), Records(crc, seg.Written()));
    FilterAscends(AtLeast(upTo + 1), Records(crc, seg.file));
    forall r | r in MustKeep(crc, w, upTo) ensures r in Records(crc, seg.Written()) {
      FilterMember(AtLeast(upTo + 1), Records(crc, seg.file), r);
      PrefixMember(Records(crc, seg.file), Records(crc, seg.Written()), r);
    }
  }

  lemma PrefixAscends(a: seq<Record>, b: seq<Record>)
    requires a <= b && AscendingSeq(b)
    ensures AscendingSeq(a)
  {
    assert b == a + b[|a|..];
    AscendingConcat(a, b[|a|..]);
  }

  lemma RewrittenSegment(crc: Checksum, keep: seq<Record>, nextSeq: nat)
    requires forall r :: r in keep ==> r.seqNo < nextSeq
    ensures SegmentInvariant(crc, OpenSeg(crc, EncodeAll(crc, keep)), nextSeq)
    ensures OpenSeg(crc, EncodeAll(crc, keep)).Written() == EncodeAll(crc, keep)
    ensures Records(crc, EncodeAll(crc, keep)) == CleanOf(crc, keep)
  {
    hide Records, EncodeAll, Clean;
    var bytes := EncodeAll(crc, keep);
    var s := OpenSeg(crc, bytes);
    assert s.Written() == bytes;
    EncodeAllTerminated(crc, keep);
    ScanFindsClean(crc, keep);
    forall r | r in Records(crc, bytes) ensures r.seqNo <= s.last && r.seqNo < nextSeq {
      OpenSegBound(crc, bytes, r);
      FilterMember(IsClean(crc), keep, r);
    }
    if nextSeq > 0 {
      LastOfWithin(Records(crc, bytes), nextSeq - 1);
    }
  }

  lemma TruncateToInvariant(crc: Checksum, w: Log, upTo: U64)
    requires LogInvariant(crc, w)
    ensures LogInvariant(crc, TruncateToLog(crc, w, upTo))
  {
    hide LogInvariant, Records, EncodeAll, OpenSeg;
    var kept := KeptBy(w, upTo);
    if HasCurrent(kept) {
      AboveKeepsInvariant(crc, w, upTo + 1);
      MustKeepIsSome(crc, w, upTo);
      RewriteIsOpen(crc, w, upTo);
      RewriteInvariant(crc, kept, MustKeep(crc, w, upTo));
    } else {
      FreshInvariant(crc, TruncateToLog(crc, w, upTo));
    }
  }

  /** Rewriting the current file with some of its own records keeps the invariant. */
  lemma RewriteInvariant(crc: Checksum, w: Log, keep: seq<Record>)
    requires LogInvariant(crc, w) && Current(w) in w.segs
    requires AscendingSeq(keep) && forall r :: r in keep ==> r in Records(crc, w.segs[Current(w)].Written())
    ensures LogInvariant(crc, w.(segs := w.segs[Current(w) := OpenSeg(crc, EncodeAll(crc, keep))]))
  {
    hide Records, EncodeAll, OpenSeg, SegmentInvariant, Clean, WrittenRecords, Thins;
    var cur := Current(w);
    var w' := w.(segs := w.segs[cur := OpenSeg(crc, EncodeAll(crc, keep))]);
    assert w'.segs.Keys == w.segs.Keys && cur in w'.segs;
    assert SegmentInvariant(crc, w.segs[cur], w.nextSeq);
    forall r | r in keep ensures r.seqNo < w.nextSeq {
      SegmentBelow(crc, w.segs[cur], w.nextSeq, r);
    }
    RewrittenSegment(crc, keep, w.nextSeq);
    FilterAscends(IsClean(crc), keep);
    forall r | r in CleanOf(crc, keep) ensures r in keep { FilterMember(IsClean(crc), keep, r); }
    RewriteThins(crc, w, w', cur);
    ThinnedLog(crc, w, w');
  }

  lemma RewriteThins(crc: Checksum, w: Log, w': Log, cur: nat)
    requires AscendingSeq(WrittenRecords(crc, w))
    requires cur in w.segs && w'.segs.Keys == w.segs.Keys
    requires forall i :: i in w.segs && i != cur ==> w'.segs[i] == w.segs[i]
    requires AscendingSeq(Records(crc, w'.segs[cur].Written()))
    requires forall r :: r in Records(crc, w'.segs[cur].Written()) ==> r in Records(crc, w.segs[cur].Written())
    ensures Thins(crc, WrittenOf(w), WrittenOf(w'))
  {
    hide Records, WrittenRecords;
    forall i | i in w.segs && i != cur ensures AscendingSeq(Records(crc, w'.segs[i].Written())) {
      WrittenFileAscends(crc, w, i);
    }
  }

  lemma SegmentBelow(crc: Checksum, s: Seg, nextSeq: nat, r: Record)
    requires SegmentInvariant(crc, s, nextSeq) && r in Records(crc, s.Written())
    ensures r.seqNo < nextSeq
  {
    hide Records;
  }

  // ----- truncating an unsynced log -----

  lemma SameHead<T>(a: seq<T>, b: seq<T>, c: seq<T>)
    requires a + c == b + c
    ensures a == b
  {
    assert |a| == |b|;
    assert (a + c)[..|a|] == a && (b + c)[..|b|] == b;
  }

  lemma KeptCurrent(w: Log, upTo: U64)
    requires HasCurrent(w) && Current(w) in w.segs && w.segs[Current(w)].last > upTo
    ensures HasCurrent(KeptBy(w, upTo)) && Current(KeptBy(w, upTo)) == Current(w)
  {
    var kept := KeptBy(w, upTo);
    assert Current(w) in kept.segs;
    MaxIndexIs(kept.segs.Keys, Current(w));
  }

  /** Replay after a sync, and replay after `TruncateTo`, with what they share named. */
  lemma TruncateToThenSync(crc: Checksum, w: Log, upTo: U64, from: nat) returns (common: seq<Record>)
    requires Framed(crc, w) && Current(w) in w.segs && w.segs[Current(w)].last > upTo && from > upTo
    ensures ReplayLog(crc, SyncLog(w), from) == common + Scan(crc, w.segs[Current(w)].Written(), from)
    ensures ReplayLog(crc, SyncLog(TruncateToLog(crc, w, upTo)), from)
         == common + FromSeq(CleanOf(crc, Scan(crc, w.segs[Current(w)].file, upTo + 1)), from)
  {
    hide Records, SegmentInvariant, Clean, OpenSeg, EncodeAll;
    var cur, files, written := Current(w), FilesOf(w), WrittenOf(w);
    KeptCurrent(w, upTo);
    FramedBounds(crc, w);
    common := TruncateToSplits(crc, w, upTo, from);
    RewrittenIsSynced(crc, w, upTo);
    assert MustKeep(crc, w, upTo) == Scan(crc, w.segs[cur].file, upTo + 1);
    FilterNarrows(AtLeast(upTo + 1), AtLeast(from), Records(crc, w.segs[cur].file));
    assert files.Keys == w.segs.Keys == written.Keys;
    ReplayIsFilter(crc, w, from);
    SplitNewest(crc, files, cur, from);
    SameHead(common, FromSeq(LogRecords(crc, files, cur), from), Scan(crc, files[cur], from));
    forall i | i in w.segs && i < cur ensures files[i] == written[i] {
      assert w.segs[i].buf == [];
    }
    LogRecordsFrame(crc, files, written, cur);
    SyncFramed(crc, w);
    FramedBounds(crc, SyncLog(w));
    ReplayIsFilter(crc, SyncLog(w), from);
    SyncedIsDurable(w);
    SplitNewest(crc, written, cur, from);
  }

  lemma RewrittenIsSynced(crc: Checksum, w: Log, upTo: U64)
    requires HasCurrent(w) && Current(w) in w.segs && w.segs[Current(w)].last > upTo
    ensures SyncLog(TruncateToLog(crc, w, upTo)) == TruncateToLog(crc, w, upTo)
  {
    hide Records, EncodeAll;
    KeptCurrent(w, upTo);
    RewriteIsOpen(crc, w, upTo);
    var t, cur := TruncateToLog(crc, w, upTo), Current(w);
    assert t.segs.Keys == KeptBy(w, upTo).segs.Keys;
    assert FlushSeg(t.segs[cur]) == t.segs[cur];
  }

  /** How many records of a segment its file alone shows in full. */
  function ShownRecords(s: Seg): nat {
    WholeRecords(|s.file|)
  }

  lemma CleanSplit(crc: Checksum, recs: seq<Record>, n: nat, from: nat)
    requires n <= |recs|
    ensures FromSeq(CleanOf(crc, recs), from)
         == FromSeq(CleanOf(crc, recs[..n]), from) + FromSeq(CleanOf(crc, recs[n..]), from)
  {
    hide Clean;
    assert recs == recs[..n] + recs[n..];
    FilterConcat(IsClean(crc), recs[..n], recs[n..]);
    FilterConcat(AtLeast(from), CleanOf(crc, recs[..n]), CleanOf(crc, recs[n..]));
  }

  /** The clean ones of some records, cut off below `upTo + 1` and cleaned once more. */
  lemma CleanAgain(crc: Checksum, recs: seq<Record>, upTo: U64, from: nat)
    requires from > upTo
    ensures FromSeq(CleanOf(crc, FromSeq(CleanOf(crc, recs), upTo + 1)), from) == FromSeq(CleanOf(crc, recs), from)
  {
    hide Clean;
    var clean := CleanOf(crc, recs);
    FilterCommutes(IsClean(crc), AtLeast(upTo + 1), clean);
    CleanTwice(crc, recs);
    FilterNarrows(AtLeast(upTo + 1), AtLeast(from), clean);
  }

  lemma SegmentShows(crc: Checksum, s: Seg, recs: seq<Record>)
    requires s.Written() == EncodeAll(crc, recs)
    ensures ShownRecords(s) <= |recs|
    ensures Records(crc, s.file) == CleanOf(crc, recs[..ShownRecords(s)])
    ensures Records(crc, s.Written()) == CleanOf(crc, recs)
  {
    hide Records, Clean, EncodeAll;
    assert |s.Written()| == |s.file| + |s.buf|;
    CrashScan(crc, recs, |s.file|);
    assert EncodeAll(crc, recs)[..|s.file|] == s.file;
    ScanFindsClean(crc, recs);
  }

  lemma NoneFrom(crc: Checksum, recs: seq<Record>, upTo: U64)
    ensures FromSeq(CleanOf(crc, recs), upTo + 1) == [] <==> forall r :: r in recs && r.seqNo > upTo ==> !Clean(crc, r)
  {
    hide Clean;
    var clean := CleanOf(crc, recs);
    forall r ensures r in FromSeq(clean, upTo + 1) <==> r in recs && Clean(crc, r) && r.seqNo > upTo {
      FilterMember(AtLeast(upTo + 1), clean, r);
      FilterMember(IsClean(crc), recs, r);
    }
    if FromSeq(clean, upTo + 1) != [] { assert FromSeq(clean, upTo + 1)[0] in FromSeq(clean, upTo + 1); }
  }

  /** `TruncateTo` scans the current file before flushing its buffer. On any current segment with
      something above the bound, replay from above the bound comes out as if the log had been synced
      first, if and only if no clean record above the bound reaches beyond what the file shows. */
  lemma TruncateToUnsynced(crc: Checksum, w: Log, upTo: U64, recs: seq<Record>)
    requires Framed(crc, w) && Current(w) in w.segs && w.segs[Current(w)].last > upTo
    requires w.segs[Current(w)].Written() == EncodeAll(crc, recs)
    ensures ShownRecords(w.segs[Current(w)]) <= |recs|
    ensures (forall from: nat :: from > upTo ==>
                                   ReplayLog(crc, SyncLog(TruncateToLog(crc, w, upTo)), from)
                                   == ReplayLog(crc, SyncLog(w), from))
       <==> (forall r :: r in recs[ShownRecords(w.segs[Current(w)])..] && r.seqNo > upTo ==> !Clean(crc, r))
  {
    hide Records, Framed, Clean, EncodeAll, TruncateToLog, ReplayLog, SyncLog, CleanOf;
    var s := w.segs[Current(w)];
    var n := ShownRecords(s);
    SegmentShows(crc, s, recs);
    NoneFrom(crc, recs[n..], upTo);
    if FromSeq(CleanOf(crc, recs[n..]), upTo + 1) == [] {
      forall from: nat | from > upTo
        ensures ReplayLog(crc, SyncLog(TruncateToLog(crc, w, upTo)), from) == ReplayLog(crc, SyncLog(w), from)
      {
        var common := TruncateToThenSync(crc, w, upTo, from);
        CleanAgain(crc, recs[..n], upTo, from);
        CleanSplit(crc, recs, n, from);
        FilterNarrows(AtLeast(upTo + 1), AtLeast(from), CleanOf(crc, recs[n..]));
        FilterNothing(AtLeast(from));
      }
    } else {
      var common := TruncateToThenSync(crc, w, upTo, upTo + 1);
      CleanAgain(crc, recs[..n], upTo, upTo + 1);
      CleanSplit(crc, recs, n, upTo + 1);
    }
  }

  /** On clean records with the last above the bound, that is: at most the final newline is still
      in the buffer. */
  lemma TruncateToNeedsSync(crc: Checksum, w: Log, upTo: U64, recs: seq<Record>)
    requires Framed(crc, w) && Current(w) in w.segs
    requires w.segs[Current(w)].Written() == EncodeAll(crc, recs)
    requires recs != [] && recs[|recs| - 1].seqNo > upTo
    requires forall r :: r in recs ==> Clean(crc, r)
    ensures (forall from: nat :: from > upTo ==>
                                   ReplayLog(crc, SyncLog(TruncateToLog(crc, w, upTo)), from)
                                   == ReplayLog(crc, SyncLog(w), from))
       <==> |w.segs[Current(w)].buf| <= 1
  {
    hide Records, Framed, Clean, EncodeAll, TruncateToLog, ReplayLog, SyncLog, ShownRecords;
    var s, last := w.segs[Current(w)], recs[|recs| - 1];
    SegmentShows(crc, s, recs);
    FilterAll(IsClean(crc), recs);
    assert last in recs;
    LastCounts(crc, w, last);
    TruncateToUnsynced(crc, w, upTo, recs);
    ShownAll(crc, s, recs);
    if ShownRecords(s) < |recs| { LastBehind(recs, ShownRecords(s)); }
  }

  lemma LastBehind<T>(s: seq<T>, n: nat)
    requires n < |s|
    ensures s[|s| - 1] in s[n..]
  {
    assert s[|s| - 1] == s[n..][|s| - n - 1];
  }

  lemma ShownAll(crc: Checksum, s: Seg, recs: seq<Record>)
    requires s.Written() == EncodeAll(crc, recs) && recs != []
    ensures ShownRecords(s) == |recs| <==> |s.buf| <= 1
  {
    hide EncodeAll;
    assert |s.Written()| == |s.file| + |s.buf|;
  }

  lemma LastCounts(crc: Checksum, w: Log, r: Record)
    requires Framed(crc, w) && Current(w) in w.segs && r in Records(crc, w.segs[Current(w)].Written())
    ensures r.seqNo <= w.segs[Current(w)].last
  {
    hide Records;
    assert SegmentInvariant(crc, w.segs[Current(w)], w.nextSeq);
  }

  /** An append to a log of one segment with room in its buffer. */
  lemma AppendToOne(crc: Checksum, w: Log, s: Seg, rec: Record)
    requires w.segs == map[1 := s] && s.size < w.maxSize && |s.buf| + FRAME_SIZE + 1 <= BUFFER
    ensures HasCurrent(w)
    ensures (var r := rec.(seqNo := w.nextSeq);
             var s' := WriteSeg(crc, s, r);
             && AppendLog(crc, w, rec) == w.(segs := map[1 := s'], nextSeq := Inc64(w.nextSeq))
             && s'.file == s.file && s'.buf == s.buf + Encode(crc, r) && s'.size == s.size + FRAME_SIZE + 1
             && s'.last == (if r.seqNo > s.last then r.seqNo else s.last) && (s.first == 0 ==> s'.first == r.seqNo))
  {
    hide Encode;
    assert 1 in w.segs;
    MaxIndexIs(w.segs.Keys, 1);
    assert map[1 := s][1 := WriteSeg(crc, s, rec.(seqNo := w.nextSeq))]
        == map[1 := WriteSeg(crc, s, rec.(seqNo := w.nextSeq))];
  }

  /** The first appends to a fresh log stay in its buffer. */
  lemma TwoAppends(crc: Checksum, maxSize: int, a: Record, b: Record) returns (w: Log)
    requires maxSize > FRAME_SIZE + 1
    ensures w == RunLog(crc, OpenLog(crc, map[], None, maxSize), [OpAppend(a), OpAppend(b)])
    ensures Framed(crc, w) && Current(w) in w.segs && w.segs[Current(w)].file == [] && w.segs[Current(w)].last == 1
    ensures w.segs[Current(w)].first == 1
    ensures w.segs[Current(w)].Written() == EncodeAll(crc, [a.(seqNo := 0), b.(seqNo := 1)])
  {
    hide Records, Encode, LogInvariant, WriteSeg, AppendLog, OpenSeg;
    var empty := OpenLog(crc, map[], None, maxSize);
    var s := OpenSeg(crc, []);
    FreshLog(crc, maxSize);
    FreshOpens(crc, maxSize);
    AppendToOne(crc, empty, s, a);
    var one := AppendLog(crc, empty, a);
    AppendToOne(crc, one, one.segs[1], b);
    w := AppendLog(crc, one, b);
    assert RunLog(crc, one, [OpAppend(b)]) == w by { assert [OpAppend(b)][1..] == []; }
    assert [OpAppend(a), OpAppend(b)][1..] == [OpAppend(b)];
    StepKeeps(crc, empty, OpAppend(a));
    StepKeeps(crc, one, OpAppend(b));
    MaxIndexIs(w.segs.Keys, 1);
    EncodeTwo(crc, a.(seqNo := 0), b.(seqNo := 1));
    FramedLog(crc, w);
    assert w.segs[1].file + w.segs[1].buf == w.segs[1].buf;
  }

  lemma FramedLog(crc: Checksum, w: Log)
    requires LogInvariant(crc, w)
    ensures Framed(crc, w)
  {
  }

  lemma FreshOpens(crc: Checksum, maxSize: int)
    ensures (var w, s := OpenLog(crc, map[], None, maxSize), OpenSeg(crc, []);
             && w.segs == map[1 := s] && w.nextSeq == 0 && w.maxSize == maxSize
             && s.file == [] && s.buf == [] && s.size == 0 && s.last == 0 && s.first == 0)
  {
    hide Records;
    FreshHoldsNothing(crc);
    assert OpenAll(crc, map[]) == map[];
    MaxIndexIs({}, 0);
  }

  lemma EncodeTwo(crc: Checksum, a: Record, b: Record)
    ensures EncodeAll(crc, [a, b]) == [] + Encode(crc, a) + Encode(crc, b)
  {
    hide Encode;
    assert [a, b][1..] == [b] && [b][1..] == [];
    assert EncodeAll(crc, [b]) == Encode(crc, b) + [];
    assert [] + Encode(crc, a) + Encode(crc, b) == Encode(crc, a) + (Encode(crc, b) + []);
  }

  /** Two samples appended and not synced, on a fresh directory: `TruncateTo(0)` throws away the
      second, which is above its bound. */
  lemma TruncateToLosesUnsynced(crc: Checksum, maxSize: int, a: Record, b: Record)
    requires maxSize > FRAME_SIZE + 1 && Clean(crc, b.(seqNo := 1))
    ensures (var w := RunLog(crc, OpenLog(crc, map[], None, maxSize), [OpAppend(a), OpAppend(b)]);
             && HasCurrent(w)
             && exists from: nat :: from > 0 && ReplayLog(crc, SyncLog(TruncateToLog(crc, w, 0)), from)
                                                != ReplayLog(crc, SyncLog(w), from))
  {
    hide Records, Framed, Clean, EncodeAll, TruncateToLog, ReplayLog, SyncLog, RunLog;
    var w := TwoAppends(crc, maxSize, a, b);
    var recs := [a.(seqNo := 0), b.(seqNo := 1)];
    TruncateToUnsynced(crc, w, 0, recs);
    assert ShownRecords(w.segs[Current(w)]) == 0;
    assert recs[0..][1] == b.(seqNo := 1);
  }

  // ----- runs -----

  datatype WalOp =
    | OpAppend(rec: Record)
    | OpSync
    | OpSetReplayStart(from: U64)
    | OpTruncateTo(upTo: U64)
    | OpTruncateBefore(low: U64)

  ghost function StepLog(crc: Checksum, w: Log, op: WalOp): (w': Log)
    requires HasCurrent(w)
    ensures HasCurrent(w')
  {
    match op
    case OpAppend(rec) => AppendLog(crc, w, rec)
    case OpSync => SyncLog(w)
    case OpSetReplayStart(from) => SetReplayStartLog(w, from)
    case OpTruncateTo(upTo) => TruncateToLog(crc, w, upTo)
    case OpTruncateBefore(low) => TruncateBeforeLog(crc, w, low)
  }

  ghost function RunLog(crc: Checksum, w: Log, ops: seq<WalOp>): (w': Log)
    requires HasCurrent(w)
    ensures HasCurrent(w')
    decreases |ops|
  {
    if ops == [] then w else RunLog(crc, StepLog(crc, w, ops[0]), ops[1..])
  }

  lemma StepKeeps(crc: Checksum, w: Log, op: WalOp)
    requires LogInvariant(crc, w) && w.nextSeq < MAX_U64
    ensures LogInvariant(crc, StepLog(crc, w, op))
    ensures w.nextSeq <= StepLog(crc, w, op).nextSeq <= w.nextSeq + 1
    ensures w.nextReplay <= StepLog(crc, w, op).nextReplay
  {
    hide Records, OpenSeg, Framed, AppendLog;
    match op {
      case OpAppend(rec) =>
        AppendWrites(crc, w, rec);
        NewestAscends(crc, w, rec.(seqNo := w.nextSeq));
      case OpSync => SyncFramed(crc, w);
      case OpSetReplayStart(from) => SameSegments(crc, w, SetReplayStartLog(w, from));
      case OpTruncateTo(upTo) => TruncateToInvariant(crc, w, upTo);
      case OpTruncateBefore(low) => TruncateBeforeInvariant(crc, w, low);
    }
  }

  lemma SameSegments(crc: Checksum, a: Log, b: Log)
    requires LogInvariant(crc, a) && b.segs == a.segs && b.nextSeq == a.nextSeq
    ensures LogInvariant(crc, b)
  {
    hide Records, SegmentInvariant;
    assert WrittenOf(a) == WrittenOf(b);
  }

  lemma NewestAscends(crc: Checksum, w: Log, r: Record)
    requires LogInvariant(crc, w) && r.seqNo == w.nextSeq
    ensures AscendingSeq(WrittenRecords(crc, w) + CleanOf(crc, [r]))
  {
    hide Records, SegmentInvariant, Clean;
    FilterOne(IsClean(crc), r);
    forall x | x in WrittenRecords(crc, w) ensures x.seqNo < w.nextSeq {
      DiskLogMember(crc, WrittenOf(w), x);
      var i :| i in WrittenOf(w) && x in Records(crc, WrittenOf(w)[i]);
      SegmentBelow(crc, w.segs[i], w.nextSeq, x);
    }
    AscendingConcat(WrittenRecords(crc, w), CleanOf(crc, [r]));
  }

  /** Over every run of the log's operations from a log satisfying the invariant (a fresh one
      does), short of 2^64 records: sequence numbers ascend in replay order, `nextSeq` and the
      watermark never go back, and a crash at any moment leaves a prefix of what was written. */
  lemma {:induction false} RunKeeps(crc: Checksum, w: Log, ops: seq<WalOp>)
    requires LogInvariant(crc, w) && w.nextSeq + |ops| <= MAX_U64
    ensures (var w' := RunLog(crc, w, ops);
             && LogInvariant(crc, w')
             && w.nextSeq <= w'.nextSeq <= w.nextSeq + |ops|
             && w.nextReplay <= w'.nextReplay
             && DiskLog(crc, FilesOf(w')) <= WrittenRecords(crc, w')
             && forall from: nat :: AscendingSeq(ReplayLog(crc, w', from)))
    decreases |ops|
  {
    hide Records, StepLog, ReplayLog, SegmentInvariant, WrittenRecords, DiskLog;
    if ops == [] {
      forall from: nat ensures AscendingSeq(ReplayLog(crc, w, from)) {
        ReplayAscends(crc, w, from);
      }
      FramedPrefix(crc, w);
    } else {
      StepKeeps(crc, w, ops[0]);
      RunKeeps(crc, StepLog(crc, w, ops[0]), ops[1..]);
    }
  }

  lemma FramedPrefix(crc: Checksum, w: Log)
    requires Framed(crc, w)
    ensures DiskLog(crc, FilesOf(w)) <= WrittenRecords(crc, w)
  {
    CrashLeavesPrefix(crc, w);
  }

  /** A log opened on an empty directory starts out with the invariant. */
  lemma FreshLog(crc: Checksum, maxSize: int)
    ensures (var w := OpenLog(crc, map[], None, maxSize);
             LogInvariant(crc, w) && w.nextSeq == w.nextReplay == 0 && WrittenRecords(crc, w) == [])
  {
    hide LogInvariant;
    var w := OpenLog(crc, map[], None, maxSize);
    assert OpenAll(crc, map[]) == map[];
    MaxIndexIs({}, 0);
    FreshInvariant(crc, w);
  }
}
