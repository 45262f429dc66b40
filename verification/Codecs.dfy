/** The bytes of the logs, the snapshots and the checkpoint (storage/wal.go, storage/snapshot.go). */
module Codecs {
  import opened Words
  import opened Tables
  import opened Logs
  import opened Disks

  type byte = x: int | 0 <= x < 256

  datatype Read<+T> = Whole(value: T) | Broken

  function Pow256(k: nat): nat {
    if k == 0 then 1 else 256 * Pow256(k - 1)
  }

  lemma Pow256Values()
    ensures Pow256(4) == 0x1_0000_0000 && Pow256(8) == LIMIT
  {
    assert Pow256(2) == 0x1_0000;
    assert Pow256(4) == 0x1_0000_0000;
    assert Pow256(6) == 0x1_0000_0000_0000;
  }

  // ----- big-endian numbers

  function Bytes(v: nat, k: nat): (b: seq<byte>)
    ensures |b| == k
  {
    if k == 0 then [] else Bytes(v / 256, k - 1) + [v % 256]
  }

  function Number(b: seq<byte>): nat {
    if b == [] then 0 else Number(b[..|b| - 1]) * 256 + b[|b| - 1]
  }

  lemma {:induction false} NumberOfBytes(v: nat, k: nat)
    requires v < Pow256(k)
    ensures Number(Bytes(v, k)) == v
  {
    if k > 0 {
      NumberOfBytes(v / 256, k - 1);
      assert Bytes(v, k)[..k - 1] == Bytes(v / 256, k - 1);
    }
  }

  lemma {:induction false} BytesOfNumber(b: seq<byte>)
    ensures Number(b) < Pow256(|b|) && Bytes(Number(b), |b|) == b
  {
    if b != [] {
      BytesOfNumber(b[..|b| - 1]);
      assert b == b[..|b| - 1] + [b[|b| - 1]];
    }
  }

  /** The highest digit comes first. */
  lemma {:induction false} HighestFirst(b: seq<byte>)
    requires b != []
    ensures Number(b) == b[0] * Pow256(|b| - 1) + Number(b[1..])
  {
    var last := |b| - 1;
    if last == 0 {
      assert b[..0] == [] && b[1..] == [];
    } else {
      HighestFirst(b[..last]);
      assert b[1..][..last - 1] == b[..last][1..];
      Times256(b[0], Pow256(last - 1));
    }
  }

  lemma Times256(x: nat, p: nat)
    ensures x * p * 256 == x * (256 * p)
  {
  }

  /** binary.BigEndian.PutUint32 and PutUint64: k bytes at the given offset. */
  method PutUint(data: array<byte>, at: nat, k: nat, v: nat)
    requires at + k <= data.Length
    modifies data
    ensures data[..at + k] == old(data[..at]) + Bytes(v, k)
    ensures forall i :: at + k <= i < data.Length ==> data[i] == old(data[i])
  {
    var i, rest := k, v;
    while i > 0
      invariant 0 <= i <= k
      invariant data[..at + i] == old(data[..at + i])
      invariant Bytes(rest, i) + data[at + i..at + k] == Bytes(v, k)
      invariant forall j :: at + k <= j < data.Length ==> data[j] == old(data[j])
    {
      ghost var later := data[at + i..at + k];
      i := i - 1;
      data[at + i] := rest % 256;
      assert Bytes(rest, i + 1) == Bytes(rest / 256, i) + [rest % 256];
      assert data[at + i..at + k] == [rest % 256] + later;
      rest := rest / 256;
    }
    assert data[..at + k] == data[..at] + data[at..at + k];
  }

  // ----- log records

  const RECORD_SIZE: nat := 40
  const LOG_MAGIC: seq<byte> := [86, 68, 66, 49]
  const ZEROS: seq<byte> := [0, 0, 0, 0]

  function Code(op: Op): byte {
    if op.Put? then 1 else 2
  }

  /** The fields fit their widths. */
  ghost predicate Fits(r: WALRecord) {
    r.sequence < LIMIT && r.shard < 0x1_0000_0000
  }

  function Encode(r: WALRecord): (b: seq<byte>)
    ensures |b| == RECORD_SIZE
  {
    LOG_MAGIC + [1, Code(r.op), 0, 0] + Bytes(r.sequence, 8) + Bytes(r.shard, 4) + ZEROS
      + Bytes(r.key, 8) + Bytes(r.value, 8)
  }

  /** decodeRecord: the reserved bytes 6, 7 and 20 to 23 are not looked at. */
  function Decode(b: seq<byte>): Read<WALRecord> {
    if |b| != RECORD_SIZE || b[..4] != LOG_MAGIC || b[4] != 1 then Broken
    else if b[5] != 1 && b[5] != 2 then Broken
    else
      Number8(b[24..32]);
      Number8(b[32..40]);
      Whole(WALRecord(if b[5] == 1 then Op.Put else Op.Delete, Number(b[8..16]), Number(b[16..20]),
                      Number(b[24..32]), Number(b[32..40])))
  }

  lemma Number8(b: seq<byte>)
    requires |b| == 8
    ensures Number(b) < LIMIT
  {
    BytesOfNumber(b);
    Pow256Values();
  }

  lemma Pieces(r: WALRecord)
    ensures var b := Encode(r);
            && b[..4] == LOG_MAGIC && b[4] == 1 && b[5] == Code(r.op)
            && b[8..16] == Bytes(r.sequence, 8) && b[16..20] == Bytes(r.shard, 4)
            && b[24..32] == Bytes(r.key, 8) && b[32..40] == Bytes(r.value, 8)
  {
  }

  /** The format in numbers: the letters VDB1, version 1, operation 1 for Put and 2 for
      Delete, then sequence, shard, key and value. */
  lemma EncodeFormat(r: WALRecord)
    requires Fits(r)
    ensures var b := Encode(r);
            && |b| == 40 && b[..6] == [86, 68, 66, 49, 1, if r.op.Put? then 1 else 2]
            && b[6] == b[7] == b[20] == b[21] == b[22] == b[23] == 0
            && Number(b[8..16]) == r.sequence && Number(b[16..20]) == r.shard
            && Number(b[24..32]) == r.key && Number(b[32..40]) == r.value
  {
    Pieces(r);
    Pow256Values();
    NumberOfBytes(r.sequence, 8);
    NumberOfBytes(r.shard, 4);
    NumberOfBytes(r.key, 8);
    NumberOfBytes(r.value, 8);
  }

  lemma DecodeFormat(b: seq<byte>)
    ensures Decode(b).Whole? <==> |b| == 40 && b[..5] == [86, 68, 66, 49, 1] && (b[5] == 1 || b[5] == 2)
    ensures Decode(b).Whole? ==>
              var r := Decode(b).value;
              && (r.op.Put? <==> b[5] == 1)
              && r.sequence == Number(b[8..16]) && r.shard == Number(b[16..20])
              && r.key == Number(b[24..32]) && r.value == Number(b[32..40])
  {
    if |b| == 40 {
      assert b[..5] == b[..4] + [b[4]];
    }
  }

  /** Every record that fits survives a round trip through a log. */
  lemma DecodeEncode(r: WALRecord)
    requires Fits(r)
    ensures Decode(Encode(r)) == Whole(r)
  {
    Pieces(r);
    Pow256Values();
    NumberOfBytes(r.sequence, 8);
    NumberOfBytes(r.shard, 4);
    NumberOfBytes(r.key, 8);
    NumberOfBytes(r.value, 8);
  }

  /** The reserved bytes cleared. */
  function Cleaned(b: seq<byte>): seq<byte>
    requires |b| == RECORD_SIZE
  {
    b[..6] + [0, 0] + b[8..20] + ZEROS + b[24..]
  }

  lemma CleanedPieces(b: seq<byte>)
    requires |b| == RECORD_SIZE
    ensures Cleaned(b) == b[..4] + [b[4], b[5], 0, 0] + b[8..16] + b[16..20] + ZEROS + b[24..32] + b[32..40]
  {
    assert b[..6] == b[..4] + [b[4], b[5]];
    assert b[8..20] == b[8..16] + b[16..20] && b[24..] == b[24..32] + b[32..40];
  }

  /** And decoding loses nothing else: what decodes is the encoding of its record, reserved bytes apart. */
  lemma EncodeDecode(b: seq<byte>)
    ensures Decode(b).Whole? ==> |b| == RECORD_SIZE && Fits(Decode(b).value) && Encode(Decode(b).value) == Cleaned(b)
  {
    if Decode(b).Whole? {
      BytesOfNumber(b[8..16]);
      BytesOfNumber(b[16..20]);
      BytesOfNumber(b[24..32]);
      BytesOfNumber(b[32..40]);
      Pow256Values();
      CleanedPieces(b);
    }
  }

  /** encodeRecord fills a buffer of zeros field by field. */
  method EncodeRecord(r: WALRecord) returns (data: array<byte>)
    ensures fresh(data) && data[..] == Encode(r)
  {
    data := new byte[RECORD_SIZE](_ => 0);
    data[0], data[1], data[2], data[3] := LOG_MAGIC[0], LOG_MAGIC[1], LOG_MAGIC[2], LOG_MAGIC[3];
    data[4] := 1;
    data[5] := Code(r.op);
    ghost var head := LOG_MAGIC + [1, Code(r.op), 0, 0];
    assert data[..8] == head;
    PutUint(data, 8, 8, r.sequence);
    PutUint(data, 16, 4, r.shard);
    ghost var middle := head + Bytes(r.sequence, 8) + Bytes(r.shard, 4);
    assert data[..20] == middle;
    assert data[..24] == middle + ZEROS;
    PutUint(data, 24, 8, r.key);
    PutUint(data, 32, 8, r.value);
    assert data[..] == data[..40] == middle + ZEROS + Bytes(r.key, 8) + Bytes(r.value, 8);
  }

  // ----- a whole log

  function EncodeAll(log: seq<WALRecord>): (b: seq<byte>)
    ensures |b| == |log| * RECORD_SIZE
  {
    if log == [] then [] else EncodeAll(log[..|log| - 1]) + Encode(log[|log| - 1])
  }

  /** The bytes of the k-th record of a file. */
  function Chunk(file: seq<byte>, k: nat): (b: seq<byte>)
    requires (k + 1) * RECORD_SIZE <= |file|
    ensures |b| == RECORD_SIZE
  {
    file[k * RECORD_SIZE..(k + 1) * RECORD_SIZE]
  }

  /** log is what the file holds, record by record. */
  ghost predicate Holds(file: seq<byte>, log: seq<WALRecord>) {
    && |file| == |log| * RECORD_SIZE
    && forall i :: 0 <= i < |log| ==> Decode(Chunk(file, i)) == Whole(log[i])
  }

  class WAL {
    var file: seq<byte>

    constructor (file: seq<byte>)
      ensures this.file == file
    {
      this.file := file;
    }

    /** Adds exactly one record to what the file holds. */
    method Append(r: WALRecord)
      requires Fits(r)
      modifies this
      ensures file == old(file) + Encode(r)
      ensures forall log :: old(Holds(file, log)) ==> Holds(file, log + [r])
    {
      var data := EncodeRecord(r);
      file := file + data[..];
      forall log | old(Holds(file, log)) ensures Holds(file, log + [r]) {
        HoldsAppend(old(file), log, r);
      }
    }

    /** Fails exactly on a file that is not a whole number of records, each of which decodes. */
    method Replay() returns (log: Read<seq<WALRecord>>)
      ensures log.Whole? <==> exists l :: Holds(file, l)
      ensures log.Whole? ==> Holds(file, log.value)
    {
      var records: seq<WALRecord> := [];
      var at := 0;
      while at < |file|
        invariant at == |records| * RECORD_SIZE <= |file|
        invariant Holds(file[..at], records)
      {
        if |file| - at < RECORD_SIZE {
          ShortTail(file, at);
          return Broken;
        }
        var record := Decode(Chunk(file, |records|));
        if record.Broken? {
          BadRecord(file, |records|);
          return Broken;
        }
        HoldsMore(file, records, record.value);
        records, at := records + [record.value], at + RECORD_SIZE;
      }
      assert file[..at] == file;
      log := Whole(records);
    }
  }

  lemma HoldsMore(file: seq<byte>, log: seq<WALRecord>, r: WALRecord)
    requires (|log| + 1) * RECORD_SIZE <= |file| && Holds(file[..|log| * RECORD_SIZE], log)
    requires Decode(Chunk(file, |log|)) == Whole(r)
    ensures Holds(file[..(|log| + 1) * RECORD_SIZE], log + [r])
  {
    var less, more := file[..|log| * RECORD_SIZE], file[..(|log| + 1) * RECORD_SIZE];
    forall i | 0 <= i < |log| + 1 ensures Decode(Chunk(more, i)) == Whole((log + [r])[i]) {
      if i < |log| {
        assert Chunk(more, i) == Chunk(less, i);
      } else {
        assert Chunk(more, i) == Chunk(file, i);
      }
    }
  }

  lemma HoldsAppend(file: seq<byte>, log: seq<WALRecord>, r: WALRecord)
    requires Holds(file, log) && Fits(r)
    ensures Holds(file + Encode(r), log + [r])
  {
    var more := file + Encode(r);
    assert more[..|log| * RECORD_SIZE] == file && Chunk(more, |log|) == Encode(r);
    DecodeEncode(r);
    HoldsMore(more, log, r);
    assert more[..(|log| + 1) * RECORD_SIZE] == more;
  }

  lemma ShortTail(file: seq<byte>, at: nat)
    requires at % RECORD_SIZE == 0 && at < |file| < at + RECORD_SIZE
    ensures forall l :: !Holds(file, l)
  {
  }

  lemma BadRecord(file: seq<byte>, k: nat)
    requires (k + 1) * RECORD_SIZE <= |file| && Decode(Chunk(file, k)).Broken?
    ensures forall l :: !Holds(file, l)
  {
    forall l ensures !Holds(file, l) {
      if Holds(file, l) {
        EachDecodes(file, l, k);
      }
    }
  }

  lemma EachDecodes(file: seq<byte>, log: seq<WALRecord>, k: nat)
    requires Holds(file, log) && (k + 1) * RECORD_SIZE <= |file|
    ensures Decode(Chunk(file, k)).Whole?
  {
    assert Decode(Chunk(file, k)) == Whole(log[k]);
  }

  /** A file holds at most one log. */
  lemma HoldsOne(file: seq<byte>, a: seq<WALRecord>, b: seq<WALRecord>)
    requires Holds(file, a) && Holds(file, b)
    ensures a == b
  {
    forall i | 0 <= i < |a| ensures a[i] == b[i] {
      assert Decode(Chunk(file, i)) == Whole(a[i]);
    }
  }

  /** The log written record by record is the log read back. */
  lemma {:induction false} EncodedHolds(log: seq<WALRecord>)
    requires forall r :: r in log ==> Fits(r)
    ensures Holds(EncodeAll(log), log)
  {
    if log != [] {
      EncodedHolds(log[..|log| - 1]);
      HoldsAppend(EncodeAll(log[..|log| - 1]), log[..|log| - 1], log[|log| - 1]);
      assert log == log[..|log| - 1] + [log[|log| - 1]];
    }
  }

  /** So Replay of the encodings of any log of records that fit, one after another, returns that log. */
  method WriteThenReplay(log: seq<WALRecord>) returns (r: Read<seq<WALRecord>>)
    requires forall x :: x in log ==> Fits(x)
    ensures r == Whole(log)
  {
    EncodedHolds(log);
    var wal := new WAL(EncodeAll(log));
    r := wal.Replay();
    HoldsOne(EncodeAll(log), r.value, log);
  }

  // Put, sequence 1, shard 2, key 7, value 70
  const SAMPLE: seq<byte> :=
    [86, 68, 66, 49, 1, 1, 0, 0] + [0, 0, 0, 0, 0, 0, 0, 1] + [0, 0, 0, 2, 0, 0, 0, 0]
    + [0, 0, 0, 0, 0, 0, 0, 7] + [0, 0, 0, 0, 0, 0, 0, 70]

  lemma {:induction false} SmallNumber(b: seq<byte>)
    requires b != [] && forall i :: 0 <= i < |b| - 1 ==> b[i] == 0
    ensures Number(b) == b[|b| - 1]
  {
    if |b| > 1 {
      SmallNumber(b[..|b| - 1]);
    }
  }

  /** One record of a real file. */
  method ReplaySample() returns (r: Read<seq<WALRecord>>)
    ensures r == Whole([WALRecord(Op.Put, 1, 2, 7, 70)])
  {
    DecodeFormat(SAMPLE);
    assert SAMPLE[8..16] == [0, 0, 0, 0, 0, 0, 0, 1] && SAMPLE[16..20] == [0, 0, 0, 2];
    assert SAMPLE[24..32] == [0, 0, 0, 0, 0, 0, 0, 7] && SAMPLE[32..40] == [0, 0, 0, 0, 0, 0, 0, 70];
    SmallNumber(SAMPLE[8..16]);
    SmallNumber(SAMPLE[16..20]);
    SmallNumber(SAMPLE[24..32]);
    SmallNumber(SAMPLE[32..40]);
    assert Chunk(SAMPLE, 0) == SAMPLE;
    assert Holds(SAMPLE, [WALRecord(Op.Put, 1, 2, 7, 70)]);
    var wal := new WAL(SAMPLE);
    r := wal.Replay();
    HoldsOne(SAMPLE, r.value, [WALRecord(Op.Put, 1, 2, 7, 70)]);
  }

  // ----- snapshots

  const SNAPSHOT_MAGIC: seq<byte> := [86, 68, 83, 49]
  const HEADER_SIZE: nat := 24

  function EntryBytes(r: KVRecord): (b: seq<byte>)
    ensures |b| == 16
  {
    Bytes(r.key, 8) + Bytes(r.value, 8)
  }

  function Entries(records: seq<KVRecord>): (b: seq<byte>)
    ensures |b| == |records| * 16
  {
    if records == [] then [] else Entries(records[..|records| - 1]) + EntryBytes(records[|records| - 1])
  }

  function Header(sequence: nat, count: nat): (b: seq<byte>)
    ensures |b| == HEADER_SIZE
  {
    SNAPSHOT_MAGIC + [1, 0, 0, 0] + Bytes(sequence, 8) + Bytes(count, 8)
  }

  function SnapshotBytes(s: SnapshotFile): seq<byte> {
    Header(s.sequence, |s.records|) + Entries(s.records)
  }

  function EntryOf(b: seq<byte>): KVRecord
    requires |b| == 16
  {
    Number8(b[..8]);
    Number8(b[8..]);
    KVRecord(Number(b[..8]), Number(b[8..]))
  }

  lemma EntryRoundTrip(r: KVRecord)
    ensures EntryOf(EntryBytes(r)) == r
  {
    assert EntryBytes(r)[..8] == Bytes(r.key, 8) && EntryBytes(r)[8..] == Bytes(r.value, 8);
    Pow256Values();
    NumberOfBytes(r.key, 8);
    NumberOfBytes(r.value, 8);
  }

  /** The i-th record of a snapshot file. */
  function Entry(b: seq<byte>, i: nat): KVRecord
    requires HEADER_SIZE + (i + 1) * 16 <= |b|
  {
    EntryOf(b[HEADER_SIZE + i * 16..HEADER_SIZE + (i + 1) * 16])
  }

  /** The file is a snapshot of the given records in the given order. */
  ghost predicate Snapshot(b: seq<byte>, s: SnapshotFile) {
    && |b| == HEADER_SIZE + |s.records| * 16
    && b[..4] == SNAPSHOT_MAGIC && b[4] == 1
    && Number(b[8..16]) == s.sequence && Number(b[16..24]) == |s.records|
    && (forall i :: 0 <= i < |s.records| ==> Entry(b, i) == s.records[i])
    && DistinctKeys(s.records)
  }

  /** The i-th record's key is at byte 24 + 16 * i, its value 8 bytes later. */
  lemma EntryFormat(b: seq<byte>, i: nat)
    requires 24 + (i + 1) * 16 <= |b|
    ensures Entry(b, i).key == Number(b[24 + i * 16..32 + i * 16])
    ensures Entry(b, i).value == Number(b[32 + i * 16..40 + i * 16])
  {
    var entry := b[24 + i * 16..24 + (i + 1) * 16];
    assert entry[..8] == b[24 + i * 16..32 + i * 16] && entry[8..] == b[32 + i * 16..40 + i * 16];
  }

  /** The format in numbers: the letters VDS1, version 1, sequence, number of records, records. */
  lemma SnapshotFormat(b: seq<byte>, s: SnapshotFile)
    ensures Snapshot(b, s) <==>
            && |b| == 24 + |s.records| * 16
            && b[..5] == [86, 68, 83, 49, 1] && Number(b[8..16]) == s.sequence && Number(b[16..24]) == |s.records|
            && (forall i :: 0 <= i < |s.records| ==>
                  && s.records[i].key == Number(b[24 + i * 16..32 + i * 16])
                  && s.records[i].value == Number(b[32 + i * 16..40 + i * 16]))
            && DistinctKeys(s.records)
  {
    if |b| == 24 + |s.records| * 16 {
      assert b[..5] == b[..4] + [b[4]];
      forall i | 0 <= i < |s.records|
        ensures Entry(b, i) == s.records[i] <==>
                && s.records[i].key == Number(b[24 + i * 16..32 + i * 16])
                && s.records[i].value == Number(b[32 + i * 16..40 + i * 16])
      {
        EntryFormat(b, i);
      }
    }
  }

  lemma PastHead<T>(head: seq<T>, rest: seq<T>, i: nat, j: nat)
    requires i <= j <= |rest|
    ensures (head + rest)[|head| + i..|head| + j] == rest[i..j]
  {
  }

  lemma EntryChunk(head: seq<byte>, records: seq<KVRecord>, i: nat)
    requires |head| == HEADER_SIZE && i < |records|
    ensures (head + Entries(records))[HEADER_SIZE + i * 16..HEADER_SIZE + (i + 1) * 16] == EntryBytes(records[i])
  {
    EntriesAt(records, i);
    PastHead(head, Entries(records), i * 16, (i + 1) * 16);
  }

  lemma EntryAt(head: seq<byte>, records: seq<KVRecord>, i: nat)
    requires |head| == HEADER_SIZE && i < |records|
    ensures Entry(head + Entries(records), i) == records[i]
  {
    EntryChunk(head, records, i);
    EntryRoundTrip(records[i]);
  }

  lemma {:induction false} EntriesAt(records: seq<KVRecord>, i: nat)
    requires i < |records|
    ensures Entries(records)[i * 16..(i + 1) * 16] == EntryBytes(records[i])
  {
    var init := records[..|records| - 1];
    if i < |init| {
      EntriesAt(init, i);
      assert Entries(records)[i * 16..(i + 1) * 16] == Entries(init)[i * 16..(i + 1) * 16];
    }
  }

  /** WriteSnapshot sorts the records in place and writes them after a header that counts them. */
  method WriteSnapshot(sequence: u64, records: seq<KVRecord>) returns (b: seq<byte>, sorted: seq<KVRecord>)
    requires |records| < LIMIT
    ensures SortedByKey(sorted) && multiset(sorted) == multiset(records)
    ensures b == SnapshotBytes(SnapshotFile(sequence, sorted))
    ensures DistinctKeys(records) ==> Ascending(sorted) && Snapshot(b, SnapshotFile(sequence, sorted))
  {
    sorted := SortByKey(records);
    SameSize(sorted, records);
    b := Header(sequence, |sorted|);
    for i := 0 to |sorted|
      invariant b == Header(sequence, |sorted|) + Entries(sorted[..i])
    {
      assert sorted[..i + 1][..i] == sorted[..i];
      b := b + EntryBytes(sorted[i]);
    }
    assert sorted[..|sorted|] == sorted;
    if DistinctKeys(records) {
      SortedDistinct(records, sorted);
      WrittenIs(sequence, sorted);
    }
  }

  lemma SortedDistinct(records: seq<KVRecord>, sorted: seq<KVRecord>)
    requires DistinctKeys(records) && SortedByKey(sorted) && multiset(sorted) == multiset(records)
    ensures Ascending(sorted) && DistinctKeys(sorted)
  {
    forall i, j | 0 <= i < j < |sorted| ensures sorted[i].key != sorted[j].key {
      if sorted[i].key == sorted[j].key {
        var x, y := sorted[i], sorted[j];
        assert x in multiset(records) && y in multiset(records);
        var k :| 0 <= k < |records| && records[k] == x;
        var l :| 0 <= l < |records| && records[l] == y;
        assert k == l;
        Twice(sorted, i, j);
        OnceIn(records, k);
        assert false;
      }
    }
  }

  lemma OnceIn(records: seq<KVRecord>, k: nat)
    requires DistinctKeys(records) && k < |records|
    ensures multiset(records)[records[k]] == 1
  {
    assert records == records[..k] + [records[k]] + records[k + 1..];
    assert records[k] !in records[..k] && records[k] !in records[k + 1..];
  }

  lemma HeaderPieces(sequence: u64, count: nat, rest: seq<byte>)
    requires count < LIMIT
    ensures var b := Header(sequence, count) + rest;
            && b[..4] == SNAPSHOT_MAGIC && b[4] == 1
            && Number(b[8..16]) == sequence && Number(b[16..24]) == count
  {
    var h := Header(sequence, count);
    var b := h + rest;
    assert b[..4] == h[..4] && b[8..16] == h[8..16] && b[16..24] == h[16..24];
    assert h[8..16] == Bytes(sequence, 8) && h[16..24] == Bytes(count, 8);
    Pow256Values();
    NumberOfBytes(sequence, 8);
    NumberOfBytes(count, 8);
  }

  lemma WrittenIs(sequence: u64, sorted: seq<KVRecord>)
    requires DistinctKeys(sorted) && |sorted| < LIMIT
    ensures Snapshot(SnapshotBytes(SnapshotFile(sequence, sorted)), SnapshotFile(sequence, sorted))
  {
    var head, entries := Header(sequence, |sorted|), Entries(sorted);
    HeaderPieces(sequence, |sorted|, entries);
    forall i | 0 <= i < |sorted| ensures Entry(head + entries, i) == sorted[i] {
      EntryAt(head, sorted, i);
    }
  }

  /** LoadSnapshot accepts exactly the files that are snapshots, and returns what they hold. */
  method LoadSnapshot(b: seq<byte>) returns (r: Read<SnapshotFile>)
    ensures r.Whole? <==> exists s :: Snapshot(b, s)
    ensures r.Whole? ==> Snapshot(b, r.value)
  {
    if |b| < HEADER_SIZE || b[..4] != SNAPSHOT_MAGIC || b[4] != 1 {
      return Broken;
    }
    var count := Number(b[16..24]);
    if count > (|b| - HEADER_SIZE) / 16 || HEADER_SIZE + count * 16 != |b| {
      return Broken;
    }
    var records: seq<KVRecord> := [];
    var seen: set<u64> := {};
    for i := 0 to count
      invariant |records| == i && DistinctKeys(records)
      invariant forall j :: 0 <= j < i ==> Entry(b, j) == records[j]
      invariant seen == set j | 0 <= j < i :: records[j].key
    {
      var record := Entry(b, i);
      if record.key in seen {
        var j :| 0 <= j < i && records[j].key == record.key;
        Repeated(b, j, i);
        return Broken;
      }
      records := records + [record];
      seen := seen + {record.key};
    }
    r := Whole(SnapshotFile(Number(b[8..16]), records));
    assert Snapshot(b, r.value);
  }

  lemma Repeated(b: seq<byte>, j: nat, i: nat)
    requires HEADER_SIZE + (i + 1) * 16 <= |b| && j < i && Entry(b, j).key == Entry(b, i).key
    ensures forall s :: !Snapshot(b, s)
  {
    forall s ensures !Snapshot(b, s) {
      if Snapshot(b, s) {
        KeysDiffer(b, s, j, i);
      }
    }
  }

  lemma KeysDiffer(b: seq<byte>, s: SnapshotFile, j: nat, i: nat)
    requires Snapshot(b, s) && j < i && HEADER_SIZE + (i + 1) * 16 <= |b|
    ensures Entry(b, j).key != Entry(b, i).key
  {
    assert Entry(b, j) == s.records[j] && Entry(b, i) == s.records[i];
  }

  lemma ListingIsBag(table: Table)
    ensures IsBag(Listing(table), table)
  {
    var listing := Listing(table);
    ListingLists(table);
    forall x: KVRecord ensures multiset(listing)[x] == if x.key in table && table[x.key] == x.value then 1 else 0 {
      assert x in listing <==> x.key in table && table[x.key] == x.value;
      if x in listing {
        var k :| 0 <= k < |listing| && listing[k] == x;
        OnceIn(listing, k);
      }
    }
  }

  lemma BagIsListing(records: seq<KVRecord>, table: Table)
    requires IsBag(records, table)
    ensures multiset(records) == multiset(Listing(table))
  {
    ListingIsBag(table);
    assert forall x: KVRecord :: multiset(records)[x] == multiset(Listing(table))[x];
  }

  lemma BagDistinct(records: seq<KVRecord>, table: Table)
    requires IsBag(records, table)
    ensures DistinctKeys(records)
  {
    forall i, j | 0 <= i < j < |records| ensures records[i].key != records[j].key {
      assert records[i] in multiset(records) && records[j] in multiset(records);
      if records[i] == records[j] {
        Twice(records, i, j);
      }
    }
  }

  /** So a snapshot written from a table reads back as its listing. */
  method WriteThenLoad(sequence: u64, table: Table) returns (r: Read<SnapshotFile>)
    requires |Listing(table)| < LIMIT
    ensures r == Whole(SnapshotFile(sequence, Listing(table)))
  {
    var records := CopyRecords(table);
    BagIsListing(records, table);
    BagDistinct(records, table);
    SameSize(records, Listing(table));
    var b, sorted := WriteSnapshot(sequence, records);
    SortedIsListing(sorted, table);
    r := LoadSnapshot(b);
    SnapshotOne(b, r.value, SnapshotFile(sequence, sorted));
  }

  /** A file is at most one snapshot. */
  lemma SnapshotOne(b: seq<byte>, s: SnapshotFile, t: SnapshotFile)
    requires Snapshot(b, s) && Snapshot(b, t)
    ensures s == t
  {
    forall i | 0 <= i < |s.records| ensures s.records[i] == t.records[i] {
      assert Entry(b, i) == s.records[i];
    }
  }

  // ----- the checkpoint

  const CHECKPOINT_MAGIC: seq<byte> := [86, 68, 67, 49]

  function EncodeCheckpoint(sequence: nat): seq<byte> {
    CHECKPOINT_MAGIC + Bytes(sequence, 8)
  }

  function DecodeCheckpoint(b: seq<byte>): Read<nat> {
    if |b| != 12 || b[..4] != CHECKPOINT_MAGIC then Broken else Whole(Number(b[4..]))
  }

  /** The format in numbers: the letters VDC1 and the sequence. */
  lemma CheckpointFormat(b: seq<byte>)
    ensures DecodeCheckpoint(b).Whole? <==> |b| == 12 && b[..4] == [86, 68, 67, 49]
    ensures DecodeCheckpoint(b).Whole? ==> DecodeCheckpoint(b).value == Number(b[4..12])
  {
    if |b| == 12 {
      assert b[4..] == b[4..12];
    }
  }

  /** Decoding inverts encoding, and accepts nothing but encodings. */
  lemma CheckpointRoundTrip(sequence: u64, b: seq<byte>)
    ensures DecodeCheckpoint(EncodeCheckpoint(sequence)) == Whole(sequence)
    ensures DecodeCheckpoint(b).Whole? ==>
              DecodeCheckpoint(b).value < LIMIT && EncodeCheckpoint(DecodeCheckpoint(b).value) == b
  {
    Pow256Values();
    NumberOfBytes(sequence, 8);
    assert EncodeCheckpoint(sequence)[4..] == Bytes(sequence, 8);
    if DecodeCheckpoint(b).Whole? {
      BytesOfNumber(b[4..]);
      assert b == b[..4] + b[4..];
    }
  }
}
