/** The same directory as bytes: every step of the protocol, done to the files as
    storage/wal.go and storage/snapshot.go encode them, keeps the files decoding to
    the protocol's disk, and a restart that reads the bytes opens that disk. */
module Files {
  import opened Words
  import opened Grids
  import opened Tables
  import opened Logs
  import opened Disks
  import opened Protocol
  import opened Codecs
  import Opening

  datatype ByteDisk = ByteDisk(
    sources: seq<seq<byte>>,
    fusion: seq<byte>,
    snapshots: map<(nat, nat), seq<byte>>,
    current: Option<seq<byte>>)

  // ----- what the bytes hold

  ghost predicate LogsHold(b: ByteDisk, d: Disk) {
    && |b.sources| == |d.sources| && (forall s :: 0 <= s < |d.sources| ==> Holds(b.sources[s], d.sources[s]))
    && Holds(b.fusion, d.fusion)
  }

  ghost predicate CurrentHolds(b: ByteDisk, d: Disk) {
    && (b.current.Some? <==> d.current.Some?)
    && (b.current.Some? ==> DecodeCheckpoint(b.current.value) == Whole(d.current.value))
  }

  ghost predicate FileHolds(b: ByteDisk, d: Disk, c: nat, s: nat) {
    && ((c, s) in b.snapshots <==> (c, s) in d.snapshots)
    && ((c, s) in b.snapshots ==> Snapshot(b.snapshots[(c, s)], d.snapshots[(c, s)]))
  }

  /** All the files of b decode, and d is what they decode to. */
  ghost predicate Stores(b: ByteDisk, d: Disk) {
    LogsHold(b, d) && CurrentHolds(b, d) && forall c, s :: FileHolds(b, d, c, s)
  }

  lemma LogsHoldOne(b: ByteDisk, d: Disk, e: Disk)
    requires LogsHold(b, d) && LogsHold(b, e)
    ensures d.sources == e.sources && d.fusion == e.fusion
  {
    forall s | 0 <= s < |d.sources| ensures d.sources[s] == e.sources[s] {
      HoldsOne(b.sources[s], d.sources[s], e.sources[s]);
    }
    HoldsOne(b.fusion, d.fusion, e.fusion);
  }

  /** The bytes determine the disk. */
  lemma StoresOne(b: ByteDisk, d: Disk, e: Disk)
    requires Stores(b, d) && Stores(b, e)
    ensures d == e
  {
    LogsHoldOne(b, d, e);
    forall c: nat, s: nat
      ensures (c, s) in d.snapshots <==> (c, s) in e.snapshots
      ensures (c, s) in d.snapshots ==> d.snapshots[(c, s)] == e.snapshots[(c, s)]
    {
      assert FileHolds(b, d, c, s) && FileHolds(b, e, c, s);
      if (c, s) in d.snapshots {
        SnapshotOne(b.snapshots[(c, s)], d.snapshots[(c, s)], e.snapshots[(c, s)]);
      }
    }
    SameFiles(d.snapshots, e.snapshots);
  }

  lemma SameFiles(a: map<(nat, nat), SnapshotFile>, b: map<(nat, nat), SnapshotFile>)
    requires forall c, s :: (c, s) in a <==> (c, s) in b
    requires forall c, s :: (c, s) in a ==> a[(c, s)] == b[(c, s)]
    ensures a == b
  {
    forall k ensures k in a <==> k in b {
      assert k == (k.0, k.1);
    }
    forall k | k in a ensures a[k] == b[k] {
      assert k == (k.0, k.1);
    }
  }

  // ----- each file operation, in bytes

  function AppendSource(b: ByteDisk, r: WALRecord): ByteDisk
    requires r.shard < |b.sources|
  {
    b.(sources := b.sources[r.shard := b.sources[r.shard] + Encode(r)])
  }

  function AppendFusion(b: ByteDisk, r: WALRecord): ByteDisk {
    b.(fusion := b.fusion + Encode(r))
  }

  function RemoveFile(b: ByteDisk, c: nat, s: nat): ByteDisk {
    b.(snapshots := b.snapshots - {(c, s)})
  }

  function WriteFile(b: ByteDisk, c: nat, s: nat, records: seq<KVRecord>): ByteDisk {
    b.(snapshots := b.snapshots[(c, s) := SnapshotBytes(SnapshotFile(c, records))])
  }

  function WriteCurrent(b: ByteDisk, c: nat): ByteDisk {
    b.(current := Some(EncodeCheckpoint(c)))
  }

  lemma SourceStored(b: ByteDisk, d: Disk, r: WALRecord)
    requires Stores(b, d) && Fits(r) && r.shard < |d.sources|
    ensures Stores(AppendSource(b, r), d.(sources := d.sources[r.shard := d.sources[r.shard] + [r]]))
  {
    var b', d' := AppendSource(b, r), d.(sources := d.sources[r.shard := d.sources[r.shard] + [r]]);
    HoldsAppend(b.sources[r.shard], d.sources[r.shard], r);
    assert LogsHold(b', d') && CurrentHolds(b', d');
    forall c: nat, s: nat ensures FileHolds(b', d', c, s) {
      assert FileHolds(b, d, c, s);
    }
  }

  lemma FusionStored(b: ByteDisk, d: Disk, r: WALRecord)
    requires Stores(b, d) && Fits(r)
    ensures Stores(AppendFusion(b, r), d.(fusion := d.fusion + [r]))
  {
    var b', d' := AppendFusion(b, r), d.(fusion := d.fusion + [r]);
    HoldsAppend(b.fusion, d.fusion, r);
    assert LogsHold(b', d') && CurrentHolds(b', d');
    forall c: nat, s: nat ensures FileHolds(b', d', c, s) {
      assert FileHolds(b, d, c, s);
    }
  }

  lemma RemovalStored(b: ByteDisk, d: Disk, c: nat, s: nat)
    requires Stores(b, d)
    ensures Stores(RemoveFile(b, c, s), d.(snapshots := d.snapshots - {(c, s)}))
  {
    var b', d' := RemoveFile(b, c, s), d.(snapshots := d.snapshots - {(c, s)});
    assert LogsHold(b', d') && CurrentHolds(b', d');
    forall x: nat, y: nat ensures FileHolds(b', d', x, y) {
      assert FileHolds(b, d, x, y);
    }
  }

  lemma FileStored(b: ByteDisk, d: Disk, c: u64, s: nat, m: Table)
    requires Stores(b, d) && |m.Keys| < LIMIT
    ensures Stores(WriteFile(b, c, s, Listing(m)), d.(snapshots := d.snapshots[(c, s) := SnapshotFile(c, Listing(m))]))
  {
    var file := SnapshotFile(c, Listing(m));
    var b', d' := WriteFile(b, c, s, Listing(m)), d.(snapshots := d.snapshots[(c, s) := file]);
    ListingSize(m);
    ListingLists(m);
    WrittenIs(c, Listing(m));
    assert LogsHold(b', d') && CurrentHolds(b', d');
    forall x: nat, y: nat ensures FileHolds(b', d', x, y) {
      assert FileHolds(b, d, x, y);
    }
  }

  lemma CurrentStored(b: ByteDisk, d: Disk, c: u64)
    requires Stores(b, d)
    ensures Stores(WriteCurrent(b, c), d.(current := Some(c)))
    ensures Stores(b.(current := None), d.(current := None))
  {
    CheckpointRoundTrip(c, []);
    var b', d' := WriteCurrent(b, c), d.(current := Some(c));
    assert LogsHold(b', d') && CurrentHolds(b', d');
    var b'', d'' := b.(current := None), d.(current := None);
    assert LogsHold(b'', d'') && CurrentHolds(b'', d'');
    forall x: nat, y: nat ensures FileHolds(b', d', x, y) && FileHolds(b'', d'', x, y) {
      assert FileHolds(b, d, x, y);
    }
  }

  // ----- the steps of the protocol, in bytes

  /** The counters still fit their 8 and 4 bytes. */
  ghost predicate Narrow(st: State) {
    |st.disk.sources| <= 0x1_0000_0000 && (st.mem.Some? ==> st.mem.value.next <= LIMIT)
  }

  ghost function ByteStep(b: ByteDisk, st: State, e: Event): ByteDisk
    requires Step(st, e).Some? && |b.sources| == |st.disk.sources|
  {
    if st.mem.None? then b
    else
      var m := st.mem.value;
      match e
      case Write(op, key, value) => AppendSource(b, RecordOf(m, |b.sources|, op, key, value))
      case Commit => AppendFusion(b, st.phase.record)
      case RemoveFile => RemoveFile(b, m.committed, st.phase.written)
      case WriteFile => WriteFile(b, m.committed, st.phase.written, Listing(m.tables[st.phase.written]))
      case Publish => WriteCurrent(b, m.committed)
      case Unpublish => b.(current := None)
      case _ => b
  }

  lemma ByteStepSources(b: ByteDisk, st: State, e: Event)
    requires Step(st, e).Some? && |b.sources| == |st.disk.sources|
    ensures |ByteStep(b, st, e).sources| == |Step(st, e).value.disk.sources|
  {
    StepSameSources(st, e);
  }

  lemma {:induction false} OrderedSize(log: seq<WALRecord>, bound: nat)
    requires InOrder(log) && Below(log, bound) && forall r :: r in log ==> r.sequence >= 1
    ensures log != [] ==> |log| < bound
    decreases |log|
  {
    if log != [] {
      var init, last := log[..|log| - 1], log[|log| - 1];
      assert last in log;
      forall r | r in init ensures r.sequence < last.sequence && r in log {
        var i :| 0 <= i < |init| && init[i] == r;
        assert log[i] == r;
      }
      OrderedSize(init, last.sequence);
    }
  }

  lemma {:induction false} AppliedSize(log: seq<WALRecord>)
    ensures |ApplyAll(map[], log).Keys| <= |log|
  {
    if log != [] {
      var init, r := log[..|log| - 1], log[|log| - 1];
      AppliedSize(init);
      var m := ApplyAll(map[], init);
      assert With(m, r.key, r.value).Keys == m.Keys + {r.key};
      assert WithoutKey(m, r.key).Keys <= m.Keys;
      Larger(WithoutKey(m, r.key).Keys, m.Keys);
    }
  }

  lemma {:induction false} Larger<T>(a: set<T>, b: set<T>)
    requires a <= b
    ensures |a| <= |b|
  {
    assert b == a + (b - a);
  }

  lemma {:induction false} KeptSize(log: seq<WALRecord>, f: WALRecord -> bool)
    ensures |Keep(log, f)| <= |log|
  {
    if log != [] {
      KeptSize(log[..|log| - 1], f);
    }
  }

  /** A table has fewer keys than there were sequence numbers. */
  lemma TableFits(d: Disk, m: Mem, k: nat)
    requires DiskSound(d) && MemSound(d, m, d.fusion) && k < |m.tables| && m.next <= LIMIT
    ensures |m.tables[k].Keys| < LIMIT
  {
    FusionRouted(d);
    OrderedSize(d.fusion, m.next);
    KeptSize(d.fusion, OnShard(k));
    AppliedSize(Keep(d.fusion, OnShard(k)));
  }

  lemma CommittedFits(d: Disk, m: Mem)
    requires MemSound(d, m, d.fusion) && m.next <= LIMIT
    ensures m.committed < LIMIT
  {
    RaiseIsMax(0, d.fusion);
  }

  lemma FileStepStored(b: ByteDisk, st: State, m: Mem)
    requires Running(st, m) && Narrow(st) && Stores(b, st.disk) && st.phase.Snapshotting? && st.phase.cleared
    ensures st.phase.written < |m.tables|
    ensures Stores(WriteFile(b, m.committed, st.phase.written, Listing(m.tables[st.phase.written])),
                   AfterWriteFile(st, m, st.phase.written).disk)
  {
    var k := st.phase.written;
    TableFits(st.disk, m, k);
    CommittedFits(st.disk, m);
    FileStored(b, st.disk, m.committed, k, m.tables[k]);
  }

  lemma PublishStepStored(b: ByteDisk, st: State, m: Mem)
    requires Running(st, m) && Narrow(st) && Stores(b, st.disk)
    requires st.phase.Snapshotting? || st.phase.Unpublished?
    ensures Stores(WriteCurrent(b, m.committed), AfterPublish(st, m).disk)
    ensures Stores(b.(current := None), st.disk.(current := None))
  {
    CommittedFits(st.disk, m);
    CurrentStored(b, st.disk, m.committed);
  }

  lemma CommitFits(st: State, m: Mem, r: WALRecord)
    requires Running(st, m) && Narrow(st) && st.phase == Logged(r)
    ensures Fits(r)
  {
    assert Below(st.disk.sources[r.shard], m.next);
  }

  lemma CommitStepStored(b: ByteDisk, st: State, m: Mem, r: WALRecord)
    requires Running(st, m) && Narrow(st) && Stores(b, st.disk) && st.phase == Logged(r)
    ensures Stores(AppendFusion(b, r), AfterCommit(st, r).disk)
  {
    CommitFits(st, m, r);
    FusionStored(b, st.disk, r);
  }

  /** Whatever step is taken, the files decode to the disk the step leaves. */
  lemma StepStored(b: ByteDisk, st: State, e: Event)
    requires Inv(st) && Step(st, e).Some? && Narrow(st) && Narrow(Step(st, e).value) && Stores(b, st.disk)
    ensures Stores(ByteStep(b, st, e), Step(st, e).value.disk)
  {
    if st.mem.Some? {
      var m := st.mem.value;
      match e
      case Write(op, key, value) => SourceStored(b, st.disk, RecordOf(m, |b.sources|, op, key, value));
      case Commit => CommitStepStored(b, st, m, st.phase.record);
      case RemoveFile => RemovalStored(b, st.disk, m.committed, st.phase.written);
      case WriteFile => FileStepStored(b, st, m);
      case Publish => PublishStepStored(b, st, m);
      case Unpublish => PublishStepStored(b, st, m);
      case _ =>
    }
  }

  method Append(file: seq<byte>, r: WALRecord) returns (longer: seq<byte>)
    requires Fits(r)
    ensures longer == file + Encode(r)
  {
    var wal := new WAL(file);
    wal.Append(r);
    longer := wal.file;
  }

  method SaveTable(c: u64, m: Table) returns (file: seq<byte>)
    requires |m.Keys| < LIMIT
    ensures file == SnapshotBytes(SnapshotFile(c, Listing(m)))
  {
    var records := CopyRecords(m);
    BagIsListing(records, m);
    SameSize(records, Listing(m));
    ListingSize(m);
    var sorted;
    file, sorted := WriteSnapshot(c, records);
    SortedIsListing(sorted, m);
  }

  /** The write-ahead log and the snapshot writer do these steps. */
  method Perform(b: ByteDisk, st: State, m: Mem, e: Event) returns (c: ByteDisk)
    requires Running(st, m) && Step(st, e).Some? && Narrow(st) && Narrow(Step(st, e).value)
    requires |b.sources| == |st.disk.sources|
    ensures c == ByteStep(b, st, e)
  {
    c := b;
    match e
    case Write(op, key, value) =>
      var r := RecordOf(m, |b.sources|, op, key, value);
      var file := Append(b.sources[r.shard], r);
      c := b.(sources := b.sources[r.shard := file]);
    case Commit =>
      CommitFits(st, m, st.phase.record);
      var file := Append(b.fusion, st.phase.record);
      c := b.(fusion := file);
    case RemoveFile => c := RemoveFile(b, m.committed, st.phase.written);
    case WriteFile =>
      TableFits(st.disk, m, st.phase.written);
      CommittedFits(st.disk, m);
      var file := SaveTable(m.committed, m.tables[st.phase.written]);
      c := b.(snapshots := b.snapshots[(m.committed, st.phase.written) := file]);
    case Publish => c := WriteCurrent(b, m.committed);
    case Unpublish => c := b.(current := None);
    case _ =>
  }

  function EmptyFiles(n: nat): ByteDisk {
    ByteDisk(seq(n, _ => []), [], map[], None)
  }

  ghost predicate AllNarrow(st: State, events: seq<Event>)
    requires Run(st, events).Some?
  {
    && Narrow(Run(st, events).value)
    && (events != [] ==> AllNarrow(st, events[..|events| - 1]))
  }

  ghost function ByteRun(b: ByteDisk, st: State, events: seq<Event>): (c: ByteDisk)
    requires Run(st, events).Some? && |b.sources| == |st.disk.sources|
    ensures |c.sources| == |Run(st, events).value.disk.sources|
  {
    if events == [] then b
    else
      var init, e := events[..|events| - 1], events[|events| - 1];
      ByteStepSources(ByteRun(b, st, init), Run(st, init).value, e);
      ByteStep(ByteRun(b, st, init), Run(st, init).value, e)
  }

  lemma {:induction false} RunStored(b: ByteDisk, st: State, events: seq<Event>)
    requires Inv(st) && Stores(b, st.disk) && Run(st, events).Some? && AllNarrow(st, events)
    ensures Stores(ByteRun(b, st, events), Run(st, events).value.disk)
  {
    if events != [] {
      var init := events[..|events| - 1];
      RunStored(b, st, init);
      RunKeepsInv(st, init);
      StepStored(ByteRun(b, st, init), Run(st, init).value, events[|events| - 1]);
    }
  }

  // ----- reading the files back

  ghost predicate Wanted(d: Disk, c: nat, s: nat) {
    d.current == Some(c) && s < |d.sources|
  }

  ghost predicate ReadHolds(b: ByteDisk, d: Disk, c: nat, s: nat) {
    if Wanted(d, c, s) then FileHolds(b, d, c, s) else (c, s) !in d.snapshots
  }

  /** What a restart sees: the logs, the checkpoint and the snapshots it names. */
  ghost predicate Reads(b: ByteDisk, d: Disk) {
    LogsHold(b, d) && CurrentHolds(b, d) && forall c, s :: ReadHolds(b, d, c, s)
  }

  ghost function Visible(d: Disk): Disk {
    d.(snapshots := map k | k in d.snapshots && Wanted(d, k.0, k.1) :: d.snapshots[k])
  }

  lemma StoresReads(b: ByteDisk, d: Disk)
    requires Stores(b, d)
    ensures Reads(b, Visible(d))
  {
    var v := Visible(d);
    assert LogsHold(b, v) && CurrentHolds(b, v);
    forall c: nat, s: nat ensures ReadHolds(b, v, c, s) {
      assert FileHolds(b, d, c, s);
    }
  }

  lemma ReadsOne(b: ByteDisk, d: Disk, e: Disk)
    requires Reads(b, d) && Reads(b, e)
    ensures d == e
  {
    LogsHoldOne(b, d, e);
    assert d.current == e.current;
    forall c: nat, s: nat
      ensures (c, s) in d.snapshots <==> (c, s) in e.snapshots
      ensures (c, s) in d.snapshots ==> d.snapshots[(c, s)] == e.snapshots[(c, s)]
    {
      assert ReadHolds(b, d, c, s) && ReadHolds(b, e, c, s);
      if (c, s) in d.snapshots {
        SnapshotOne(b.snapshots[(c, s)], d.snapshots[(c, s)], e.snapshots[(c, s)]);
      }
    }
    SameFiles(d.snapshots, e.snapshots);
  }

  ghost predicate IsLog(file: seq<byte>) {
    exists l :: Holds(file, l)
  }

  ghost predicate IsSnapshot(file: seq<byte>) {
    exists s :: Snapshot(file, s)
  }

  /** The files that a restart needs are what they should be. */
  ghost predicate Readable(b: ByteDisk) {
    && (forall s :: 0 <= s < |b.sources| ==> IsLog(b.sources[s])) && IsLog(b.fusion)
    && (b.current.Some? ==> SnapshotsReadable(b, DecodeCheckpoint(b.current.value)))
  }

  ghost predicate SnapshotsReadable(b: ByteDisk, c: Read<nat>) {
    && c.Whole?
    && forall s: nat :: s < |b.sources| && (c.value, s) in b.snapshots ==> IsSnapshot(b.snapshots[(c.value, s)])
  }

  lemma ReadsReadable(b: ByteDisk, d: Disk)
    requires Reads(b, d)
    ensures Readable(b)
  {
    forall s | 0 <= s < |b.sources| ensures IsLog(b.sources[s]) {
      assert Holds(b.sources[s], d.sources[s]);
    }
    if d.current.Some? {
      var c := d.current.value;
      forall s: nat | s < |b.sources| && (c, s) in b.snapshots ensures IsSnapshot(b.snapshots[(c, s)]) {
        assert ReadHolds(b, d, c, s);
      }
    }
  }

  method ReadLog(file: seq<byte>) returns (r: Read<seq<WALRecord>>)
    ensures r.Whole? <==> IsLog(file)
    ensures r.Whole? ==> Holds(file, r.value)
  {
    var wal := new WAL(file);
    r := wal.Replay();
  }

  method ReadLogs(files: seq<seq<byte>>) returns (r: Read<seq<seq<WALRecord>>>)
    ensures r.Whole? <==> forall s :: 0 <= s < |files| ==> IsLog(files[s])
    ensures r.Whole? ==> |r.value| == |files| && forall s :: 0 <= s < |files| ==> Holds(files[s], r.value[s])
  {
    var logs: seq<seq<WALRecord>> := [];
    for s := 0 to |files|
      invariant |logs| == s && forall t :: 0 <= t < s ==> IsLog(files[t]) && Holds(files[t], logs[t])
    {
      var one := ReadLog(files[s]);
      if one.Broken? {
        return Broken;
      }
      logs := logs + [one.value];
    }
    r := Whole(logs);
  }

  ghost predicate SnapshotsRead(b: ByteDisk, c: nat, k: nat, read: map<(nat, nat), SnapshotFile>) {
    forall x, s :: ReadAt(b, c, k, read, x, s)
  }

  ghost predicate ReadAt(b: ByteDisk, c: nat, k: nat, read: map<(nat, nat), SnapshotFile>, x: nat, s: nat) {
    && ((x, s) in read <==> x == c && s < k && (x, s) in b.snapshots)
    && ((x, s) in read ==> Snapshot(b.snapshots[(x, s)], read[(x, s)]))
  }

  // The snapshots of the first n shards at c, those of them that are there.
  method ReadSnapshots(b: ByteDisk, c: nat, n: nat) returns (r: Read<map<(nat, nat), SnapshotFile>>)
    ensures r.Whole? <==> forall s: nat :: s < n && (c, s) in b.snapshots ==> IsSnapshot(b.snapshots[(c, s)])
    ensures r.Whole? ==> SnapshotsRead(b, c, n, r.value)
  {
    var read: map<(nat, nat), SnapshotFile> := map[];
    for s := 0 to n
      invariant SnapshotsRead(b, c, s, read)
      invariant forall t: nat :: t < s && (c, t) in b.snapshots ==> IsSnapshot(b.snapshots[(c, t)])
    {
      ghost var before, next := read, s + 1;
      if (c, s) in b.snapshots {
        var one := LoadSnapshot(b.snapshots[(c, s)]);
        if one.Broken? {
          return Broken;
        }
        read := read[(c, s) := one.value];
      }
      forall x: nat, t: nat ensures ReadAt(b, c, next, read, x, t) {
        assert ReadAt(b, c, s, before, x, t);
      }
    }
    r := Whole(read);
  }

  /** Fails exactly when a file that a restart needs does not decode. */
  method ReadFiles(b: ByteDisk) returns (r: Read<Disk>)
    ensures r.Whole? <==> Readable(b)
    ensures r.Whole? ==> Reads(b, r.value)
  {
    var sources := ReadLogs(b.sources);
    var fusion := ReadLog(b.fusion);
    if sources.Broken? || fusion.Broken? {
      return Broken;
    }
    if b.current.None? {
      var d := Disk(sources.value, fusion.value, map[], None);
      assert forall c, s :: ReadHolds(b, d, c, s);
      return Whole(d);
    }
    var c := DecodeCheckpoint(b.current.value);
    if c.Broken? {
      return Broken;
    }
    var snapshots := ReadSnapshots(b, c.value, |b.sources|);
    if snapshots.Broken? {
      return Broken;
    }
    var d := Disk(sources.value, fusion.value, snapshots.value, Some(c.value));
    forall x: nat, s: nat ensures ReadHolds(b, d, x, s) {
      assert ReadAt(b, c.value, |b.sources|, snapshots.value, x, s);
    }
    r := Whole(d);
  }

  // ----- opening what was read

  lemma {:induction false} VisibleTails(d: Disk, k: nat)
    requires k <= |d.sources|
    ensures RaiseTails(Visible(d), k) == RaiseTails(d, k)
  {
    if k > 0 {
      VisibleTails(d, k - 1);
    }
  }

  /** The files a restart does not look at make no difference to it. */
  lemma VisibleOpens(d: Disk)
    ensures Openable(Visible(d)) <==> Openable(d)
    ensures Opened(Visible(d)) == Opened(d)
  {
    forall s | 0 <= s < |d.sources|
      ensures SnapshotLoads(Visible(d), s) <==> SnapshotLoads(d, s)
      ensures SourceRouted(Visible(d), s) <==> SourceRouted(d, s)
      ensures SourceAgrees(Visible(d), s) <==> SourceAgrees(d, s)
      ensures OpenedTable(Visible(d), s) == OpenedTable(d, s)
    {
      VisibleSource(d, s);
    }
    forall f ensures HasSource(Visible(d), f) <==> HasSource(d, f) {
    }
    VisibleTails(d, |d.sources|);
  }

  lemma VisibleSource(d: Disk, s: nat)
    requires s < |d.sources|
    ensures SnapshotLoads(Visible(d), s) <==> SnapshotLoads(d, s)
    ensures SourceRouted(Visible(d), s) <==> SourceRouted(d, s)
    ensures SourceAgrees(Visible(d), s) <==> SourceAgrees(d, s)
    ensures OpenedTable(Visible(d), s) == OpenedTable(d, s)
  {
  }

  /** A restart from bytes. */
  method OpenFiles(b: ByteDisk) returns (r: Read<Opening.Loading<Mem>>)
    ensures r.Whole? <==> Readable(b)
    ensures forall d :: Stores(b, d) ==>
              r.Whole? && (r.value.Loaded? <==> Openable(d)) && (r.value.Loaded? ==> r.value.value == Opened(d))
  {
    var disk := ReadFiles(b);
    forall d | Stores(b, d) ensures disk == Whole(Visible(d)) {
      StoresReads(b, d);
      ReadsReadable(b, Visible(d));
      ReadsOne(b, disk.value, Visible(d));
    }
    forall d {
      VisibleOpens(d);
    }
    if disk.Broken? {
      return Broken;
    }
    var loaded := Opening.Load(disk.value);
    r := Whole(loaded);
  }

  /** Whatever ran and crashed before, reading the bytes it left gives memory that holds,
      shard by shard, the map the fusion log describes. */
  method ReopenFiles(n: nat, ghost events: seq<Event>, b: ByteDisk) returns (m: Mem)
    requires n >= 2 && Run(Start(n), events).Some? && AllNarrow(Start(n), events)
    requires b == ByteRun(EmptyFiles(n), Start(n), events)
    ensures var log := Run(Start(n), events).value.disk.fusion;
            && |m.tables| == n && m == Opened(Run(Start(n), events).value.disk)
            && forall key: u64 ::
                 && (key in m.tables[Bucket(key, n)] <==> key in ApplyAll(map[], log))
                 && (key in m.tables[Bucket(key, n)] ==> m.tables[Bucket(key, n)][key] == ApplyAll(map[], log)[key])
  {
    StartSound(n);
    RunStored(EmptyFiles(n), Start(n), events);
    AlwaysReopens(n, events);
    var r := OpenFiles(b);
    m := r.value.value;
  }
}
