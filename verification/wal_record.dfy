/** The log's record format: 32 payload bytes, a 4-byte checksum, a newline.

    The checksum is any function from bytes to 32 bits; nothing below depends on which. */
module WalRecord {
  import opened Bytes
  import opened Model
  import opened Seqs

  const RECORD_SIZE := 32
  const CRC_SIZE := 4
  const FRAME_SIZE := 36
  const NEWLINE: Byte := 0x0A
  const RETURN: Byte := 0x0D

  type Checksum = seq<Byte> -> U32

  datatype Record = Record(seqNo: U64, series: U64, ts: I64, value: U64)

  function Payload(r: Record): (b: seq<Byte>)
    ensures |b| == RECORD_SIZE
  {
    LittleEndian(r.seqNo, 8) + LittleEndian(r.series, 8)
    + LittleEndian(ToUnsigned(r.ts), 8) + LittleEndian(r.value, 8)
  }

  /** The 36 bytes of a record before its newline. */
  function Frame(crc: Checksum, r: Record): (b: seq<Byte>)
    ensures |b| == FRAME_SIZE
  {
    Payload(r) + LittleEndian(crc(Payload(r)), CRC_SIZE)
  }

  function Encode(crc: Checksum, r: Record): (b: seq<Byte>)
    ensures |b| == FRAME_SIZE + 1
  {
    Frame(crc, r) + [NEWLINE]
  }

  function EncodeAll(crc: Checksum, recs: seq<Record>): (b: seq<Byte>)
    ensures |b| == (FRAME_SIZE + 1) * |recs|
  {
    if recs == [] then [] else Encode(crc, recs[0]) + EncodeAll(crc, recs[1..])
  }

  predicate ChecksumHolds(crc: Checksum, line: seq<Byte>) {
    && |line| >= FRAME_SIZE
    && Read32(line[RECORD_SIZE..FRAME_SIZE]) == crc(line[..RECORD_SIZE])
  }

  /** What a scan makes of one line: short lines and bad checksums are skipped, and bytes
      after the first 36 are ignored. */
  function Decode(crc: Checksum, line: seq<Byte>): Option<Record> {
    if ChecksumHolds(crc, line) then
      Some(Record(Read64(line[0..8]), Read64(line[8..16]), ToSigned(Read64(line[16..24])), Read64(line[24..32])))
    else
      None
  }

  lemma DecodeFrame(crc: Checksum, r: Record, extra: seq<Byte>)
    ensures Decode(crc, Frame(crc, r) + extra) == Some(r)
  {
    var line := Frame(crc, r) + extra;
    assert line[..RECORD_SIZE] == Payload(r);
    assert line[RECORD_SIZE..FRAME_SIZE] == LittleEndian(crc(Payload(r)), CRC_SIZE);
    assert line[0..8] == LittleEndian(r.seqNo, 8);
    assert line[8..16] == LittleEndian(r.series, 8);
    assert line[16..24] == LittleEndian(ToUnsigned(r.ts), 8);
    assert line[24..32] == LittleEndian(r.value, 8);
    DecodeEncode32(crc(Payload(r)));
    DecodeEncode64(r.seqNo);
    DecodeEncode64(r.series);
    DecodeEncode64(ToUnsigned(r.ts));
    DecodeEncode64(r.value);
  }

  /** Where every field of a record stands in its line, as little-endian numbers, the timestamp in two's
      complement. */
  lemma RecordLayout(crc: Checksum, r: Record)
    ensures (var b := Encode(crc, r);
             && |b| == 37 && b[36] == 10
             && FromLittleEndian(b[0..8]) == r.seqNo
             && FromLittleEndian(b[8..16]) == r.series
             && FromLittleEndian(b[16..24]) == (if r.ts >= 0 then r.ts else r.ts + 0x1_0000_0000_0000_0000)
             && FromLittleEndian(b[24..32]) == r.value
             && FromLittleEndian(b[32..36]) == crc(b[..32]))
  {
    hide LittleEndian, FromLittleEndian;
    var b := Encode(crc, r);
    DecodeEncode64(r.seqNo);
    DecodeEncode64(r.series);
    DecodeEncode64(ToUnsigned(r.ts));
    DecodeEncode64(r.value);
    DecodeEncode32(crc(Payload(r)));
    assert b[..32] == Payload(r);
    assert b[0..8] == LittleEndian(r.seqNo, 8);
    assert b[8..16] == LittleEndian(r.series, 8);
    assert b[16..24] == LittleEndian(ToUnsigned(r.ts), 8);
    assert b[24..32] == LittleEndian(r.value, 8);
    assert b[32..36] == LittleEndian(crc(Payload(r)), 4);
  }

  lemma ReadBack64(b: seq<Byte>)
    requires |b| == 8
    ensures LittleEndian(Read64(b), 8) == b && LittleEndian(ToUnsigned(ToSigned(Read64(b))), 8) == b
  {
    EncodeDecode(b);
  }

  /** A line is taken for a record exactly if it begins with that record's frame: every field, and the
      checksum of the other 32 bytes. */
  lemma DecodeIff(crc: Checksum, line: seq<Byte>, r: Record)
    ensures Decode(crc, line) == Some(r) <==> |line| >= 36 && line[..36] == Frame(crc, r)
  {
    hide LittleEndian, FromLittleEndian, Read64, Read32;
    if |line| >= 36 && line[..36] == Frame(crc, r) {
      assert line == Frame(crc, r) + line[36..];
      DecodeFrame(crc, r, line[36..]);
    }
    if Decode(crc, line) == Some(r) {
      ReadBack64(line[0..8]);
      ReadBack64(line[8..16]);
      ReadBack64(line[16..24]);
      ReadBack64(line[24..32]);
      assert line[..32] == line[0..8] + line[8..16] + line[16..24] + line[24..32];
      assert line[..32] == Payload(r);
      ReadBack32(line[32..36]);
      assert line[..36] == line[..32] + line[32..36];
    }
  }

  lemma ReadBack32(b: seq<Byte>)
    requires |b| == 4
    ensures LittleEndian(Read32(b), 4) == b
  {
    EncodeDecode(b);
  }

  /** `bufio.ScanLines` drops one carriage return at the end of a line. */
  function DropReturn(line: seq<Byte>): seq<Byte> {
    if line != [] && line[|line| - 1] == RETURN then line[..|line| - 1] else line
  }

  function Found(decoded: Option<Record>): seq<Record> {
    if decoded.Some? then [decoded.value] else []
  }

  /** The record of one line, as a sequence of length zero or one. */
  function OfLine(crc: Checksum, line: seq<Byte>): (recs: seq<Record>)
    ensures |recs| <= 1
    ensures |line| < FRAME_SIZE ==> recs == []
  {
    Found(Decode(crc, DropReturn(line)))
  }

  function LineRecords(crc: Checksum): seq<Byte> -> seq<Record> {
    (line: seq<Byte>) => OfLine(crc, line)
  }

  /** Every record a scan of `b` finds, in file order. A last line without its newline counts. */
  function Records(crc: Checksum, b: seq<Byte>): seq<Record> {
    FlatMap(LineRecords(crc), SplitFrom([], b, NEWLINE))
  }

  function AtLeast(from: nat): Record -> bool {
    (r: Record) => r.seqNo >= from
  }

  function FromSeq(recs: seq<Record>, from: nat): seq<Record> {
    Filter(AtLeast(from), recs)
  }

  /** `scanRecords`: the records of `b` with Seq >= from. */
  function Scan(crc: Checksum, b: seq<Byte>, from: nat): seq<Record> {
    FromSeq(Records(crc, b), from)
  }

  /** A record survives the line framing exactly when its 36 bytes hold no newline and do not
      end in a carriage return. */
  predicate Clean(crc: Checksum, r: Record) {
    NEWLINE !in Frame(crc, r) && Frame(crc, r)[FRAME_SIZE - 1] != RETURN
  }

  function IsClean(crc: Checksum): Record -> bool {
    (r: Record) => Clean(crc, r)
  }

  function CleanOf(crc: Checksum, recs: seq<Record>): seq<Record> {
    Filter(IsClean(crc), recs)
  }

  lemma CleanTwice(crc: Checksum, recs: seq<Record>)
    ensures CleanOf(crc, CleanOf(crc, recs)) == CleanOf(crc, recs)
  {
    hide Clean;
    forall r | r in CleanOf(crc, recs) ensures IsClean(crc)(r) { FilterMember(IsClean(crc), recs, r); }
    FilterAll(IsClean(crc), CleanOf(crc, recs));
  }

  /** Whole lines only: empty, or ending in a newline. */
  predicate Terminated(b: seq<Byte>) {
    b == [] || b[|b| - 1] == NEWLINE
  }

  // ----- encoded logs -----

  lemma {:induction false} EncodeAllConcat(crc: Checksum, a: seq<Record>, b: seq<Record>)
    ensures EncodeAll(crc, a + b) == EncodeAll(crc, a) + EncodeAll(crc, b)
  {
    if a == [] {
      assert a + b == b;
    } else {
      assert (a + b)[1..] == a[1..] + b;
      EncodeAllConcat(crc, a[1..], b);
    }
  }

  lemma {:induction false} EncodeAllTerminated(crc: Checksum, recs: seq<Record>)
    ensures Terminated(EncodeAll(crc, recs))
  {
    if recs != [] {
      EncodeAllTerminated(crc, recs[1..]);
    }
  }

  // ----- line framing -----

  /** Scanning whole lines and then the rest is scanning the concatenation. */
  lemma RecordsConcat(crc: Checksum, a: seq<Byte>, b: seq<Byte>)
    requires Terminated(a)
    ensures Records(crc, a + b) == Records(crc, a) + Records(crc, b)
  {
    if a == [] {
      assert a + b == b;
    } else {
      SplitConcat([], a, b, NEWLINE);
      FlatMapConcat(LineRecords(crc), SplitFrom([], a, NEWLINE), SplitFrom([], b, NEWLINE));
    }
  }

  /** Every record found costs 37 bytes; only the last may lack its newline. */
  lemma {:induction false} RecordsCost(crc: Checksum, current: seq<Byte>, b: seq<Byte>)
    ensures (FRAME_SIZE + 1) * |FlatMap(LineRecords(crc), SplitFrom(current, b, NEWLINE))|
         <= |current| + |b| + (if b != [] && Terminated(b) then 0 else 1)
    decreases |b|
  {
    hide Decode;
    var f := LineRecords(crc);
    if b == [] {
      assert FlatMap(f, [current]) == f(current);
    } else if b[0] == NEWLINE {
      RecordsCost(crc, [], b[1..]);
      assert SplitFrom(current, b, NEWLINE)[1..] == SplitFrom([], b[1..], NEWLINE);
      if |b| == 1 { assert SplitFrom([], b[1..], NEWLINE) == []; }
    } else {
      RecordsCost(crc, current + [b[0]], b[1..]);
    }
  }

  lemma TooShortForRecord(crc: Checksum, b: seq<Byte>)
    requires |b| < FRAME_SIZE || (|b| == FRAME_SIZE && Terminated(b))
    ensures Records(crc, b) == []
  {
    RecordsCost(crc, [], b);
  }

  /** A fragment of a record, for any checksum, never decodes. */
  lemma FragmentsNeverDecode(crc: Checksum, b: seq<Byte>, i: nat)
    requires i < FRAME_SIZE && i < |b| <= FRAME_SIZE + 1 && b[i] == NEWLINE
    requires |b| == FRAME_SIZE + 1 ==> Terminated(b)
    ensures Records(crc, b) == []
  {
    var head, rest := b[..i + 1], b[i + 1..];
    assert b == head + rest;
    RecordsConcat(crc, head, rest);
    TooShortForRecord(crc, head);
    TooShortForRecord(crc, rest);
  }

  lemma RecordsOfLine(crc: Checksum, line: seq<Byte>, end: seq<Byte>)
    requires line != [] && NEWLINE !in line && (end == [] || end == [NEWLINE])
    ensures Records(crc, line + end) == OfLine(crc, line)
  {
    var f := LineRecords(crc);
    SplitExtends([], line, end, NEWLINE);
    assert [] + line == line;
    assert SplitFrom(line, end, NEWLINE) == [line];
    assert FlatMap(f, [line]) == f(line);
  }

  lemma FrameLine(crc: Checksum, r: Record)
    ensures OfLine(crc, Frame(crc, r)) == if Frame(crc, r)[FRAME_SIZE - 1] != RETURN then [r] else []
  {
    DecodeFrame(crc, r, []);
    assert Frame(crc, r) + [] == Frame(crc, r);
  }

  /** One record's first k bytes, newline not included: only a clean record with all of its
      36 bytes present is found. */
  lemma RecordsOfTorn(crc: Checksum, r: Record, k: nat)
    requires k <= FRAME_SIZE
    ensures Records(crc, Encode(crc, r)[..k]) == if k == FRAME_SIZE && Clean(crc, r) then [r] else []
  {
    var frame := Frame(crc, r);
    assert Encode(crc, r)[..k] == frame[..k];
    if k < FRAME_SIZE {
      TooShortForRecord(crc, frame[..k]);
    } else {
      assert frame[..k] == frame == frame + [];
      if NEWLINE in frame {
        var i :| 0 <= i < FRAME_SIZE && frame[i] == NEWLINE;
        FragmentsNeverDecode(crc, frame, i);
      } else {
        RecordsOfLine(crc, frame, []);
        FrameLine(crc, r);
      }
    }
  }

  lemma RecordsOfOne(crc: Checksum, r: Record)
    ensures Records(crc, Encode(crc, r)) == CleanOf(crc, [r])
  {
    var frame, b := Frame(crc, r), Encode(crc, r);
    FilterOne(IsClean(crc), r);
    if NEWLINE in frame {
      var i :| 0 <= i < FRAME_SIZE && frame[i] == NEWLINE;
      FragmentsNeverDecode(crc, b, i);
    } else {
      RecordsOfLine(crc, frame, [NEWLINE]);
      FrameLine(crc, r);
    }
  }

  /** Scanning a log of encoded records finds, in order, exactly the clean ones. */
  lemma {:induction false} ScanFindsClean(crc: Checksum, recs: seq<Record>)
    ensures Records(crc, EncodeAll(crc, recs)) == CleanOf(crc, recs)
  {
    if recs != [] {
      RecordsConcat(crc, Encode(crc, recs[0]), EncodeAll(crc, recs[1..]));
      RecordsOfOne(crc, recs[0]);
      ScanFindsClean(crc, recs[1..]);
      FilterConcat(IsClean(crc), [recs[0]], recs[1..]);
      assert recs == [recs[0]] + recs[1..];
    }
  }

  lemma ScanFindsCleanFrom(crc: Checksum, recs: seq<Record>, from: nat, r: Record)
    ensures Scan(crc, EncodeAll(crc, recs), from) == FromSeq(CleanOf(crc, recs), from)
    ensures r in Scan(crc, EncodeAll(crc, recs), from) <==> r in recs && r.seqNo >= from && Clean(crc, r)
  {
    ScanFindsClean(crc, recs);
    FilterMember(AtLeast(from), CleanOf(crc, recs), r);
    FilterMember(IsClean(crc), recs, r);
  }

  /** How many of a log's records have all 36 bytes among its first k. */
  function WholeRecords(k: nat): nat {
    (k + 1) / (FRAME_SIZE + 1)
  }

  /** A crash that keeps the first k bytes of a log: the scan finds the clean records among
      those with all 36 bytes present. */
  lemma {:induction false} CrashScan(crc: Checksum, recs: seq<Record>, k: nat)
    requires k <= |EncodeAll(crc, recs)|
    ensures WholeRecords(k) <= |recs|
    ensures Records(crc, EncodeAll(crc, recs)[..k]) == CleanOf(crc, recs[..WholeRecords(k)])
  {
    hide Records, Encode;
    if recs == [] {
      assert EncodeAll(crc, recs)[..k] == [];
      NothingToScan(crc);
    } else if k <= FRAME_SIZE {
      CrashInFirst(crc, recs, k);
    } else {
      CrashScan(crc, recs[1..], k - FRAME_SIZE - 1);
      CrashPeel(crc, recs, k);
      var n := WholeRecords(k);
      assert n - 1 == WholeRecords(k - FRAME_SIZE - 1);
      assert recs[..n] == [recs[0]] + recs[1..][..n - 1];
      FilterConcat(IsClean(crc), [recs[0]], recs[1..][..n - 1]);
    }
  }

  lemma CrashInFirst(crc: Checksum, recs: seq<Record>, k: nat)
    requires recs != [] && k <= FRAME_SIZE
    ensures Records(crc, EncodeAll(crc, recs)[..k]) == CleanOf(crc, recs[..WholeRecords(k)])
  {
    hide Records, Encode, Frame, Clean;
    assert EncodeAll(crc, recs)[..k] == Encode(crc, recs[0])[..k];
    assert WholeRecords(k) == if k == FRAME_SIZE then 1 else 0;
    RecordsOfTorn(crc, recs[0], k);
    FilterOne(IsClean(crc), recs[0]);
    assert recs[..1] == [recs[0]];
  }

  lemma CrashPeel(crc: Checksum, recs: seq<Record>, k: nat)
    requires recs != [] && FRAME_SIZE < k <= |EncodeAll(crc, recs)|
    ensures Records(crc, EncodeAll(crc, recs)[..k])
         == CleanOf(crc, [recs[0]]) + Records(crc, EncodeAll(crc, recs[1..])[..k - FRAME_SIZE - 1])
  {
    var head, rest := Encode(crc, recs[0]), EncodeAll(crc, recs[1..]);
    assert EncodeAll(crc, recs)[..k] == head + rest[..k - FRAME_SIZE - 1];
    RecordsConcat(crc, head, rest[..k - FRAME_SIZE - 1]);
    RecordsOfOne(crc, recs[0]);
  }

  lemma {:induction false} CleanOfPrefix(crc: Checksum, recs: seq<Record>, n: nat)
    requires n <= |recs|
    ensures CleanOf(crc, recs[..n]) <= CleanOf(crc, recs)
  {
    assert recs == recs[..n] + recs[n..];
    FilterConcat(IsClean(crc), recs[..n], recs[n..]);
  }

  /** After a crash at any byte, what the scan finds is a prefix of the full scan. */
  lemma CrashScanIsPrefix(crc: Checksum, recs: seq<Record>, k: nat)
    requires k <= |EncodeAll(crc, recs)|
    ensures Records(crc, EncodeAll(crc, recs)[..k]) <= Records(crc, EncodeAll(crc, recs))
  {
    CrashScan(crc, recs, k);
    ScanFindsClean(crc, recs);
    CleanOfPrefix(crc, recs, WholeRecords(k));
  }

  /** A torn tail swallows the first line of the next record: the two together yield at most
      one record. */
  lemma TornMerge(crc: Checksum, tail: seq<Byte>, r: Record)
    requires |tail| <= FRAME_SIZE
    ensures |Records(crc, tail + Encode(crc, r))| <= 1
  {
    RecordsCost(crc, [], tail + Encode(crc, r));
  }

  /** The 36 bytes of a clean record without a newline, then a whole record: the line decodes
      to the torn record and the appended one is lost. */
  lemma TornLosesNext(crc: Checksum, torn: Record, next: Record)
    requires Clean(crc, torn)
    ensures Records(crc, Frame(crc, torn) + Encode(crc, next)) == [torn]
  {
    var t, e := Frame(crc, torn), Encode(crc, next);
    assert NEWLINE == e[FRAME_SIZE];
    var j := FirstNewline(e);
    var line := t + e[..j];
    assert t + e == (line + [NEWLINE]) + e[j + 1..];
    RecordsConcat(crc, line + [NEWLINE], e[j + 1..]);
    RecordsOfLine(crc, line, [NEWLINE]);
    var kept := DropReturn(line);
    assert kept == t + kept[FRAME_SIZE..];
    DecodeFrame(crc, torn, kept[FRAME_SIZE..]);
    TornMerge(crc, t, next);
  }

  lemma FirstNewline(b: seq<Byte>) returns (j: nat)
    requires NEWLINE in b
    ensures j < |b| && b[j] == NEWLINE && NEWLINE !in b[..j]
  {
    j := 0;
    while b[j] != NEWLINE
      invariant j < |b| && NEWLINE !in b[..j]
      decreases |b| - j
    {
      assert b[..j + 1] == b[..j] + [b[j]];
      assert b == b[..j + 1] + b[j + 1..];
      j := j + 1;
    }
  }

  /** Splitting a log's first k bytes into its whole records and the torn one. */
  lemma CrashSplit(crc: Checksum, recs: seq<Record>, k: nat)
    requires k <= |EncodeAll(crc, recs)|
    ensures k / (FRAME_SIZE + 1) <= |recs|
    ensures k % (FRAME_SIZE + 1) != 0 ==> k / (FRAME_SIZE + 1) < |recs|
    ensures EncodeAll(crc, recs)[..k] == EncodeAll(crc, recs[..k / (FRAME_SIZE + 1)]) + Tear(crc, recs, k)
  {
    hide Encode;
    var n, m := k / (FRAME_SIZE + 1), k % (FRAME_SIZE + 1);
    assert recs == recs[..n] + recs[n..];
    EncodeAllConcat(crc, recs[..n], recs[n..]);
    if m != 0 {
      assert EncodeAll(crc, recs[n..])[..m] == Encode(crc, recs[n])[..m];
    }
  }

  /** The bytes of the record a crash at byte k tears. */
  function Tear(crc: Checksum, recs: seq<Record>, k: nat): (t: seq<Byte>)
    requires k <= |EncodeAll(crc, recs)|
    ensures |t| == k % (FRAME_SIZE + 1)
  {
    var n, m := k / (FRAME_SIZE + 1), k % (FRAME_SIZE + 1);
    if m == 0 then [] else Encode(crc, recs[n])[..m]
  }

  lemma TearThenAppend(crc: Checksum, recs: seq<Record>, k: nat, r1: Record) returns (middle: seq<Record>)
    requires k <= |EncodeAll(crc, recs)|
    ensures middle == Records(crc, Tear(crc, recs, k) + Encode(crc, r1))
    ensures |middle| <= 1
    ensures k % (FRAME_SIZE + 1) == 0 ==> middle == CleanOf(crc, [r1])
    ensures k % (FRAME_SIZE + 1) == FRAME_SIZE && Clean(crc, recs[k / (FRAME_SIZE + 1)])
            ==> middle == [recs[k / (FRAME_SIZE + 1)]]
  {
    var n, m, t := k / (FRAME_SIZE + 1), k % (FRAME_SIZE + 1), Tear(crc, recs, k);
    middle := Records(crc, t + Encode(crc, r1));
    TornMerge(crc, t, r1);
    if m == 0 {
      assert t + Encode(crc, r1) == Encode(crc, r1);
      RecordsOfOne(crc, r1);
    } else if m == FRAME_SIZE && Clean(crc, recs[n]) {
      assert t == Frame(crc, recs[n]);
      TornLosesNext(crc, recs[n], r1);
    }
  }

  /** Appending r1 and then more records behind a crash at byte k: everything whole before the
      tear, at most one record out of the tear and r1, then exactly the clean later records.
      When only the newline of a clean record is missing, that record is found and r1 is lost. */
  lemma TornAppend(crc: Checksum, recs: seq<Record>, k: nat, r1: Record, more: seq<Record>)
    returns (middle: seq<Record>)
    requires k <= |EncodeAll(crc, recs)|
    ensures k / (FRAME_SIZE + 1) <= |recs|
    ensures |middle| <= 1
    ensures Records(crc, EncodeAll(crc, recs)[..k] + Encode(crc, r1) + EncodeAll(crc, more))
         == CleanOf(crc, recs[..k / (FRAME_SIZE + 1)]) + middle + CleanOf(crc, more)
    ensures k % (FRAME_SIZE + 1) == 0 ==> middle == CleanOf(crc, [r1])
    ensures k % (FRAME_SIZE + 1) == FRAME_SIZE && Clean(crc, recs[k / (FRAME_SIZE + 1)])
            ==> middle == [recs[k / (FRAME_SIZE + 1)]]
  {
    CrashSplit(crc, recs, k);
    middle := TearThenAppend(crc, recs, k, r1);
    var whole := recs[..k / (FRAME_SIZE + 1)];
    EncodeAllTerminated(crc, whole);
    JoinThree(crc, EncodeAll(crc, whole), Tear(crc, recs, k), Encode(crc, r1), EncodeAll(crc, more));
    ScanFindsClean(crc, whole);
    ScanFindsClean(crc, more);
    RecordsConcat(crc, EncodeAll(crc, whole), Tear(crc, recs, k) + Encode(crc, r1));
  }

  lemma JoinThree(crc: Checksum, whole: seq<Byte>, tear: seq<Byte>, line: seq<Byte>, rest: seq<Byte>)
    requires Terminated(whole) && line != [] && Terminated(line)
    ensures Records(crc, whole + tear + line + rest) == Records(crc, whole + (tear + line)) + Records(crc, rest)
  {
    assert whole + tear + line + rest == (whole + (tear + line)) + rest;
    RecordsConcat(crc, whole + (tear + line), rest);
  }

  // ----- the loops -----

  /** `appendChecksum`: the payload followed by its checksum, in a fresh buffer. */
  method AppendChecksum(crc: Checksum, payload: seq<Byte>) returns (out: array<Byte>)
    ensures fresh(out)
    ensures out[..] == payload + LittleEndian(crc(payload), CRC_SIZE)
  {
    var sum := LittleEndian(crc(payload), CRC_SIZE);
    out := new Byte[|payload| + CRC_SIZE];
    for i := 0 to |payload|
      invariant out[..i] == payload[..i]
    {
      out[i] := payload[i];
    }
    for i := 0 to CRC_SIZE
      invariant out[..|payload|] == payload
      invariant out[|payload|..|payload| + i] == sum[..i]
    {
      out[|payload| + i] := sum[i];
    }
    assert out[..] == out[..|payload|] + out[|payload|..|payload| + CRC_SIZE];
  }

  /** `encodeRecord`: grows a buffer field by field. */
  method EncodeRecord(crc: Checksum, rec: Record) returns (buf: seq<Byte>)
    ensures buf == Encode(crc, rec)
    ensures |buf| == FRAME_SIZE + 1
  {
    buf := LittleEndian(rec.seqNo, 8);
    buf := buf + LittleEndian(rec.series, 8);
    buf := buf + LittleEndian(ToUnsigned(rec.ts), 8);
    buf := buf + LittleEndian(rec.value, 8);
    var framed := AppendChecksum(crc, buf);
    buf := framed[..] + [NEWLINE];
  }

  /** `bufio.Scanner` with the line splitter: the next line without its end, and the rest. */
  method NextLine(crc: Checksum, b: seq<Byte>) returns (line: seq<Byte>, rest: seq<Byte>)
    requires b != []
    ensures |rest| < |b|
    ensures Records(crc, b) == Found(Decode(crc, line)) + Records(crc, rest)
  {
    var i := 0;
    while i < |b| && b[i] != NEWLINE
      invariant i <= |b| && NEWLINE !in b[..i]
    {
      i := i + 1;
    }
    line := DropReturn(b[..i]);
    if i == |b| {
      rest := [];
      assert b[..i] == b == b + [];
      RecordsOfLine(crc, b, []);
    } else {
      rest := b[i + 1..];
      LineThenRest(crc, b, i);
    }
  }

  lemma LineThenRest(crc: Checksum, b: seq<Byte>, i: nat)
    requires i < |b| && b[i] == NEWLINE && NEWLINE !in b[..i]
    ensures Records(crc, b) == OfLine(crc, b[..i]) + Records(crc, b[i + 1..])
  {
    assert b == (b[..i] + [NEWLINE]) + b[i + 1..];
    RecordsConcat(crc, b[..i] + [NEWLINE], b[i + 1..]);
    if i > 0 {
      RecordsOfLine(crc, b[..i], [NEWLINE]);
    } else {
      assert b[..i] + [NEWLINE] == [NEWLINE];
      TooShortForRecord(crc, [NEWLINE]);
    }
  }

  // ----- exactly what a scan finds -----

  /** b[i..j] is a line: it starts the file or follows a newline, and ends it or is followed by one. */
  ghost predicate LineAt(b: seq<Byte>, i: int, j: int) {
    && 0 <= i <= j <= |b| && (i == 0 || b[i - 1] == 10) && (j == |b| || b[j] == 10) && 10 !in b[i..j]
  }

  /** The line, less a carriage return at its end, begins with the record's 36 bytes. */
  ghost predicate Carries(crc: Checksum, line: seq<Byte>, r: Record) {
    var kept := if line != [] && line[|line| - 1] == 13 then line[..|line| - 1] else line;
    |kept| >= 36 && kept[..36] == Frame(crc, r)
  }

  lemma CarriesIff(crc: Checksum, line: seq<Byte>, r: Record)
    ensures r in OfLine(crc, line) <==> Carries(crc, line, r)
  {
    hide Decode, Frame;
    DecodeIff(crc, DropReturn(line), r);
  }

  /** On any bytes at all, a scan finds a record if and only if some line carries it: nothing is made up,
      and nothing that fails its checksum is let through. */
  lemma {:induction false} ScanFindsIff(crc: Checksum, b: seq<Byte>, r: Record)
    ensures r in Records(crc, b) <==> exists i, j :: LineAt(b, i, j) && Carries(crc, b[i..j], r)
    decreases |b|
  {
    hide OfLine, Carries, Records;
    if NEWLINE in b {
      var n := FirstNewline(b);
      LineThenRest(crc, b, n);
      CarriesIff(crc, b[..n], r);
      var rest := b[n + 1..];
      ScanFindsIff(crc, rest, r);
      LinesAfter(crc, b, n, rest, r);
    } else if b == [] {
      NothingToScan(crc);
      CarriesSome(crc, r);
      assert forall i, j :: LineAt(b, i, j) ==> b[i..j] == [];
    } else {
      RecordsOfLine(crc, b, []);
      assert b + [] == b == b[0..|b|];
      CarriesIff(crc, b, r);
      assert LineAt(b, 0, |b|);
      assert forall i, j :: LineAt(b, i, j) ==> i == 0 && j == |b|;
    }
  }

  lemma CarriesSome(crc: Checksum, r: Record)
    ensures !Carries(crc, [], r)
  {
  }

  /** The lines of b are its first one and those of the rest. */
  lemma LinesAfter(crc: Checksum, b: seq<Byte>, n: nat, rest: seq<Byte>, r: Record)
    requires n < |b| && b[n] == 10 && 10 !in b[..n] && rest == b[n + 1..]
    ensures (exists i, j :: LineAt(b, i, j) && Carries(crc, b[i..j], r))
       <==> Carries(crc, b[..n], r) || exists i, j :: LineAt(rest, i, j) && Carries(crc, rest[i..j], r)
  {
    hide Carries;
    assert LineAt(b, 0, n) && b[0..n] == b[..n];
    if i, j :| LineAt(b, i, j) && Carries(crc, b[i..j], r) {
      if i == 0 {
        assert j == n;
      } else {
        assert i - 1 >= n;
        assert rest[i - n - 1..j - n - 1] == b[i..j];
        assert LineAt(rest, i - n - 1, j - n - 1);
      }
    }
    if i, j :| LineAt(rest, i, j) && Carries(crc, rest[i..j], r) {
      assert b[i + n + 1..j + n + 1] == rest[i..j];
      assert LineAt(b, i + n + 1, j + n + 1);
    }
  }

  /** One turn of the scan loop: what the next line decodes to, and the rest. */
  method NextRecord(crc: Checksum, b: seq<Byte>) returns (decoded: Option<Record>, rest: seq<Byte>)
    requires b != []
    ensures |rest| < |b|
    ensures Records(crc, b) == Found(decoded) + Records(crc, rest)
  {
    var line;
    line, rest := NextLine(crc, b);
    decoded := Decode(crc, line);
  }

  lemma NothingToScan(crc: Checksum)
    ensures Records(crc, []) == []
  {
  }

  lemma ScanStep(decoded: Option<Record>, rest: seq<Record>, from: U64)
    ensures FromSeq(Found(decoded) + rest, from)
         == (if decoded.Some? && decoded.value.seqNo >= from then [decoded.value] else []) + FromSeq(rest, from)
  {
    FilterConcat(AtLeast(from), Found(decoded), rest);
    if decoded.Some? {
      FilterOne(AtLeast(from), decoded.value);
    }
  }

  /** `scanRecords`, with the callback's effect collected in `out`. */
  method ScanRecords(crc: Checksum, b: seq<Byte>, from: U64) returns (out: seq<Record>)
    ensures out == Scan(crc, b, from)
  {
    hide Records, Found;
    out := [];
    var rest := b;
    while rest != []
      invariant out + Scan(crc, rest, from) == Scan(crc, b, from)
      decreases |rest|
    {
      var decoded, after := NextRecord(crc, rest);
      ScanStep(decoded, Records(crc, after), from);
      Associate(out, if decoded.Some? && decoded.value.seqNo >= from then [decoded.value]
                else [], Scan(crc, after, from));
      if decoded.Some? && decoded.value.seqNo >= from {
        out := out + [decoded.value];
      }
      rest := after;
    }
    NothingToScan(crc);
  }
}
