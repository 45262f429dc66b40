/** The loading half of Open, loop by loop (db/database.go): on any directory it
    succeeds exactly when Openable says so, and then yields Opened. */
module Opening {
  import opened Words
  import opened Grids
  import opened Tables
  import opened Logs
  import opened Disks

  datatype LoadError =
    | TooFewShards | MissingSnapshot | DuplicateKey | CheckpointMismatch | MisroutedKey
    | MisroutedRecord | DuplicateSequence | LogMismatch | MissingSource

  datatype Loading<+T> = Loaded(value: T) | Failed(error: LoadError)

  ghost predicate Snapshotted(d: Disk, s: nat) {
    d.current.Some? && s < |d.sources| && (d.current.value, s) in d.snapshots
  }

  ghost predicate SnapshotMissing(d: Disk) {
    d.current.Some? && exists s :: 0 <= s < |d.sources| && (d.current.value, s) !in d.snapshots
  }

  ghost predicate KeyRepeated(d: Disk) {
    exists s, i, j :: Snapshotted(d, s) && var rs := d.snapshots[(d.current.value, s)].records;
                      0 <= i < j < |rs| && rs[i].key == rs[j].key
  }

  ghost predicate SnapshotMismatched(d: Disk) {
    exists s :: Snapshotted(d, s) && d.snapshots[(d.current.value, s)].sequence != d.current.value
  }

  ghost predicate KeyMisrouted(d: Disk) {
    exists s, r :: Snapshotted(d, s) && r in d.snapshots[(d.current.value, s)].records && r.key % |d.sources| != s
  }

  ghost predicate RecordMisrouted(d: Disk) {
    exists s, r :: 0 <= s < |d.sources| && r in d.sources[s] && (r.shard != s || r.key % |d.sources| != s)
  }

  ghost predicate SequenceRepeated(log: seq<WALRecord>) {
    exists i, j :: 0 <= i < j < |log| && log[i].sequence == log[j].sequence
  }

  ghost predicate LogsMismatched(d: Disk) {
    exists s, r, f :: 0 <= s < |d.sources| && r in d.sources[s] && f in d.fusion &&
                      r.sequence == f.sequence > Checkpoint(d) && r != f
  }

  // A commit after the checkpoint that no source log has a record of.
  ghost predicate Orphaned(d: Disk, f: WALRecord) {
    && f in d.fusion && f.sequence > Checkpoint(d)
    && forall s, r :: 0 <= s < |d.sources| && r in d.sources[s] ==> r.sequence != f.sequence
  }

  /** What is wrong with a directory that Open refuses. */
  ghost predicate Flawed(d: Disk, e: LoadError) {
    match e
    case TooFewShards => |d.sources| < 2
    case MissingSnapshot => SnapshotMissing(d)
    case DuplicateKey => KeyRepeated(d)
    case CheckpointMismatch => SnapshotMismatched(d)
    case MisroutedKey => KeyMisrouted(d)
    case MisroutedRecord => RecordMisrouted(d)
    case DuplicateSequence => SequenceRepeated(d.fusion)
    case LogMismatch => LogsMismatched(d)
    case MissingSource => exists f :: Orphaned(d, f)
  }

  lemma FlawedFails(d: Disk, e: LoadError)
    requires Flawed(d, e)
    ensures !Openable(d)
  {
    match e
    case TooFewShards =>
    case MissingSnapshot =>
      var s :| 0 <= s < |d.sources| && (d.current.value, s) !in d.snapshots;
      assert !SnapshotLoads(d, s);
    case DuplicateKey =>
      var s, i, j :| Snapshotted(d, s) && var rs := d.snapshots[(d.current.value, s)].records;
                     0 <= i < j < |rs| && rs[i].key == rs[j].key;
      assert !SnapshotLoads(d, s);
    case CheckpointMismatch =>
      var s :| Snapshotted(d, s) && d.snapshots[(d.current.value, s)].sequence != d.current.value;
      assert !SnapshotLoads(d, s);
    case MisroutedKey =>
      var s, r :| Snapshotted(d, s) && r in d.snapshots[(d.current.value, s)].records && r.key % |d.sources| != s;
      assert !SnapshotLoads(d, s);
    case MisroutedRecord =>
      RoutedMeaning(d);
    case DuplicateSequence =>
    case LogMismatch =>
      var s, r, f :| 0 <= s < |d.sources| && r in d.sources[s] && f in d.fusion &&
                     r.sequence == f.sequence > Checkpoint(d) && r != f;
      assert !SourceAgrees(d, s);
    case MissingSource =>
      var f :| Orphaned(d, f);
      assert !HasSource(d, f);
  }

  // ----- snapshots

  /** storage.LoadSnapshot's check that no key occurs twice. */
  method CheckKeys(records: seq<KVRecord>) returns (ok: bool)
    ensures ok <==> DistinctKeys(records)
  {
    var seen: set<u64> := {};
    for i := 0 to |records|
      invariant forall k :: k in seen <==> exists j :: 0 <= j < i && records[j].key == k
      invariant forall j, k :: 0 <= j < k < i ==> records[j].key != records[k].key
    {
      if records[i].key in seen {
        return false;
      }
      seen := seen + {records[i].key};
    }
    ok := true;
  }

  method LoadSnapshot(d: Disk, s: nat) returns (r: Loading<Table>)
    requires s < |d.sources| && d.current.Some?
    ensures r.Loaded? <==> SnapshotLoads(d, s)
    ensures r.Loaded? ==> r.value == Disks.Loaded(d, s)
    ensures r.Failed? ==> Flawed(d, r.error)
  {
    var c := d.current.value;
    if (c, s) !in d.snapshots {
      return Failed(MissingSnapshot);
    }
    var file := d.snapshots[(c, s)];
    var ok := CheckKeys(file.records);
    if !ok {
      return Failed(DuplicateKey);
    }
    if file.sequence != c {
      return Failed(CheckpointMismatch);
    }
    var data: Table := map[];
    for i := 0 to |file.records|
      invariant data == TableOf(file.records[..i])
      invariant forall j :: 0 <= j < i ==> Bucket(file.records[j].key, |d.sources|) == s
    {
      var record := file.records[i];
      if Bucket(record.key, |d.sources|) != s {
        assert record in file.records;
        return Failed(MisroutedKey);
      }
      assert file.records[..i + 1][..i] == file.records[..i];
      data := With(data, record.key, record.value);
    }
    assert file.records[..|file.records|] == file.records;
    r := Loaded(data);
  }

  method LoadTables(d: Disk) returns (r: Loading<seq<Table>>)
    ensures r.Loaded? <==> SnapshotsLoad(d)
    ensures r.Failed? ==> Flawed(d, r.error)
    ensures r.Loaded? ==> |r.value| == |d.sources| && forall s :: 0 <= s < |d.sources| ==>
              r.value[s] == Disks.Loaded(d, s)
  {
    var tables: seq<Table> := seq(|d.sources|, _ => map[]);
    if d.current.Some? {
      for s := 0 to |d.sources|
        invariant |tables| == |d.sources|
        invariant forall t :: 0 <= t < s ==> SnapshotLoads(d, t) && tables[t] == Disks.Loaded(d, t)
      {
        var one := LoadSnapshot(d, s);
        if one.Failed? {
          return Failed(one.error);
        }
        tables := tables[s := one.value];
      }
    }
    r := Loaded(tables);
  }

  // ----- the logs

  method ScanSource(d: Disk, s: nat, first: nat) returns (next: nat, ok: bool)
    requires s < |d.sources| && first >= 1
    ensures ok <==> SourceRouted(d, s)
    ensures ok ==> next >= 1 && next == Raise(first - 1, d.sources[s]) + 1
  {
    next := first;
    var records := d.sources[s];
    for i := 0 to |records|
      invariant next >= 1 && next == Raise(first - 1, records[..i]) + 1
      invariant forall j :: 0 <= j < i ==> records[j].shard == s && Bucket(records[j].key, |d.sources|) == s
    {
      if records[i].shard != s || Bucket(records[i].key, |d.sources|) != s {
        assert records[i] in records;
        return next, false;
      }
      assert records[..i + 1][..i] == records[..i];
      if records[i].sequence >= next {
        next := records[i].sequence + 1;
      }
    }
    assert records[..|records|] == records;
    ok := true;
  }

  method ScanSources(d: Disk, first: nat) returns (next: nat, ok: bool)
    requires first >= 1
    ensures ok <==> SourcesRouted(d)
    ensures !ok ==> RecordMisrouted(d)
    ensures ok ==> next >= 1 && next == RaiseSources(first - 1, d.sources) + 1
  {
    next := first;
    for s := 0 to |d.sources|
      invariant next >= 1 && next == RaiseSources(first - 1, d.sources[..s]) + 1
      invariant forall t :: 0 <= t < s ==> SourceRouted(d, t)
    {
      assert d.sources[..s + 1][..s] == d.sources[..s];
      next, ok := ScanSource(d, s, next);
      if !ok {
        return;
      }
    }
    assert d.sources[..|d.sources|] == d.sources;
    ok := true;
  }

  // The fusion log by sequence number.
  ghost predicate Indexes(commits: map<nat, WALRecord>, log: seq<WALRecord>) {
    && (forall f :: f in log ==> f.sequence in commits && commits[f.sequence] == f)
    && (forall q :: q in commits ==> commits[q] in log && commits[q].sequence == q)
  }

  method ScanFusion(log: seq<WALRecord>, first: nat) returns (commits: map<nat, WALRecord>, next: nat, ok: bool)
    requires first >= 1
    ensures ok <==> DistinctSequences(log)
    ensures !ok ==> SequenceRepeated(log)
    ensures ok ==> Indexes(commits, log) && next >= 1 && next == Raise(first - 1, log) + 1
  {
    commits, next := map[], first;
    for i := 0 to |log|
      invariant next >= 1 && next == Raise(first - 1, log[..i]) + 1
      invariant DistinctSequences(log[..i]) && Indexes(commits, log[..i])
    {
      assert log[..i + 1] == log[..i] + [log[i]];
      if log[i].sequence in commits {
        Repeated(log, i, commits[log[i].sequence]);
        return commits, next, false;
      }
      assert log[..i + 1][..i] == log[..i];
      IndexOneMore(commits, log[..i], log[i]);
      commits := commits[log[i].sequence := log[i]];
      if log[i].sequence >= next {
        next := log[i].sequence + 1;
      }
    }
    assert log[..|log|] == log;
    ok := true;
  }

  lemma IndexOneMore(commits: map<nat, WALRecord>, log: seq<WALRecord>, r: WALRecord)
    requires DistinctSequences(log) && Indexes(commits, log) && r.sequence !in commits
    ensures DistinctSequences(log + [r]) && Indexes(commits[r.sequence := r], log + [r])
  {
    assert forall f :: f in log + [r] <==> f in log || f == r;
    assert forall j :: 0 <= j < |log| ==> log[j] in log && (log + [r])[j] == log[j];
  }

  lemma Repeated(log: seq<WALRecord>, i: nat, earlier: WALRecord)
    requires i < |log| && earlier in log[..i] && earlier.sequence == log[i].sequence
    ensures !DistinctSequences(log)
  {
    var j :| 0 <= j < i && log[j] == earlier;
  }

  // ----- replay

  lemma Disagrees(d: Disk, s: nat, r: WALRecord, f: WALRecord)
    requires s < |d.sources| && r in d.sources[s] && f in d.fusion
    requires r.sequence > Checkpoint(d) && r.sequence == f.sequence && r != f
    ensures !SourceAgrees(d, s) && LogsMismatched(d)
  {
  }

  // What replaying a stretch of records does to the table, the highest number and the numbers seen.
  ghost predicate Replayed(log: seq<WALRecord>, from: (Table, nat, set<nat>), to: (Table, nat, set<nat>)) {
    to.0 == ApplyAll(from.0, log) && to.1 == Raise(from.1, log) && to.2 == from.2 + Seqs(log)
  }

  lemma ReplayedOne(log: seq<WALRecord>, r: WALRecord, from: (Table, nat, set<nat>), to: (Table, nat, set<nat>))
    requires Replayed(log, from, to)
    ensures Replayed(log + [r], from,
              (Apply(to.0, r), if r.sequence > to.1 then r.sequence else to.1, to.2 + {r.sequence}))
  {
    assert (log + [r])[..|log|] == log;
    assert forall x :: x in log + [r] <==> x in log || x == r;
    assert r in log + [r];
    assert Seqs(log + [r]) == Seqs(log) + {r.sequence};
  }

  ghost predicate AgreesUpTo(d: Disk, records: seq<WALRecord>, i: nat)
    requires i <= |records|
  {
    forall j, f :: 0 <= j < i && f in d.fusion && records[j].sequence > Checkpoint(d) ==>
      (records[j].sequence == f.sequence ==> records[j] == f)
  }

  // A record agrees when it is old, uncommitted, or the very record committed under its number.
  lemma AgreesOneMore(d: Disk, records: seq<WALRecord>, i: nat, commits: map<nat, WALRecord>)
    requires i < |records| && AgreesUpTo(d, records, i) && Indexes(commits, d.fusion)
    requires var r := records[i];
             r.sequence <= Checkpoint(d) || r.sequence !in commits || commits[r.sequence] == r
    ensures AgreesUpTo(d, records, i + 1)
  {
  }

  /** One shard's log: skips what the checkpoint covers and what was never committed. */
  method ReplaySource(d: Disk, s: nat, commits: map<nat, WALRecord>, table: Table, committed: nat, seen: set<nat>)
    returns (table': Table, committed': nat, seen': set<nat>, ok: bool)
    requires s < |d.sources| && Indexes(commits, d.fusion)
    ensures ok <==> SourceAgrees(d, s)
    ensures !ok ==> LogsMismatched(d)
    ensures ok ==> Replayed(Tail(d, s), (table, committed, seen), (table', committed', seen'))
  {
    table', committed', seen' := table, committed, seen;
    var records, checkpoint := d.sources[s], Checkpoint(d);
    ghost var chosen := CommittedAfter(checkpoint, Seqs(d.fusion));
    ghost var kept := [];
    for i := 0 to |records|
      invariant kept == Keep(records[..i], chosen)
      invariant Replayed(kept, (table, committed, seen), (table', committed', seen'))
      invariant AgreesUpTo(d, records, i)
    {
      var record := records[i];
      NextKept(records, i, chosen);
      ChosenIffIndexed(commits, d.fusion, checkpoint, record);
      if record.sequence <= checkpoint || record.sequence !in commits {
        AgreesOneMore(d, records, i, commits);
        continue;
      }
      if commits[record.sequence] != record {
        Disagrees(d, s, record, commits[record.sequence]);
        return table', committed', seen', false;
      }
      AgreesOneMore(d, records, i, commits);
      ReplayedOne(kept, record, (table, committed, seen), (table', committed', seen'));
      kept := kept + [record];
      table' := Apply(table', record);
      seen' := seen' + {record.sequence};
      if record.sequence > committed' {
        committed' := record.sequence;
      }
    }
    assert records[..|records|] == records;
    ok := true;
  }

  lemma ChosenIffIndexed(commits: map<nat, WALRecord>, log: seq<WALRecord>, c: nat, r: WALRecord)
    requires Indexes(commits, log)
    ensures CommittedAfter(c, Seqs(log))(r) <==> r.sequence > c && r.sequence in commits
    ensures forall f :: f in log && f.sequence == r.sequence ==> r.sequence in commits && commits[r.sequence] == f
  {
    if r.sequence in commits {
      assert commits[r.sequence] in log;
    }
  }

  lemma NextKept(records: seq<WALRecord>, i: nat, f: WALRecord -> bool)
    requires i < |records|
    ensures Keep(records[..i + 1], f) ==
              if f(records[i]) then Keep(records[..i], f) + [records[i]] else Keep(records[..i], f)
  {
    assert records[..i + 1] == records[..i] + [records[i]];
    KeepStep(records[..i], records[i], f);
  }

  // The numbers of the records applied by the first k shards.
  ghost function SeenBy(d: Disk, k: nat): set<nat>
    requires k <= |d.sources|
  {
    if k == 0 then {} else SeenBy(d, k - 1) + Seqs(Tail(d, k - 1))
  }

  ghost predicate ReplayedUpTo(d: Disk, loaded: seq<Table>, tables: seq<Table>, k: nat) {
    && |tables| == |loaded| == |d.sources|
    && forall s :: 0 <= s < |tables| ==> tables[s] == if s < k then ApplyAll(loaded[s], Tail(d, s)) else loaded[s]
  }

  lemma ReplayedNext(d: Disk, loaded: seq<Table>, tables: seq<Table>, k: nat)
    requires ReplayedUpTo(d, loaded, tables, k) && k < |d.sources|
    ensures ReplayedUpTo(d, loaded, tables[k := ApplyAll(tables[k], Tail(d, k))], k + 1)
  {
  }

  method ReplayAll(d: Disk, commits: map<nat, WALRecord>, loaded: seq<Table>)
    returns (tables: seq<Table>, committed: nat, seen: set<nat>, ok: bool)
    requires |loaded| == |d.sources| && Indexes(commits, d.fusion)
    ensures ok <==> SourcesAgree(d)
    ensures !ok ==> LogsMismatched(d)
    ensures ok ==> ReplayedUpTo(d, loaded, tables, |d.sources|)
    ensures ok ==> committed == RaiseTails(d, |d.sources|) && seen == SeenBy(d, |d.sources|)
  {
    tables, committed, seen := loaded, Checkpoint(d), {};
    for s := 0 to |d.sources|
      invariant ReplayedUpTo(d, loaded, tables, s)
      invariant forall t :: 0 <= t < s ==> SourceAgrees(d, t)
      invariant committed == RaiseTails(d, s) && seen == SeenBy(d, s)
    {
      var table;
      table, committed, seen, ok := ReplaySource(d, s, commits, tables[s], committed, seen);
      if !ok {
        return;
      }
      ReplayedNext(d, loaded, tables, s);
      tables := tables[s := table];
    }
    ok := true;
  }

  lemma {:induction false} SeenMeansSource(d: Disk, k: nat, q: nat)
    requires k <= |d.sources|
    ensures q in SeenBy(d, k) <==>
            q > Checkpoint(d) && q in Seqs(d.fusion) && exists s :: 0 <= s < k && q in Seqs(d.sources[s])
  {
    if k > 0 {
      SeenMeansSource(d, k - 1, q);
      KeepMembers(d.sources[k - 1], CommittedAfter(Checkpoint(d), Seqs(d.fusion)));
      if q in Seqs(Tail(d, k - 1)) {
        var r :| r in Tail(d, k - 1) && r.sequence == q;
        assert r in d.sources[k - 1] && q in Seqs(d.sources[k - 1]);
      }
    }
  }

  // ----- all of it

  lemma LoadedIsOpened(d: Disk, loaded: seq<Table>, m: Mem)
    requires |loaded| == |d.sources| && forall s :: 0 <= s < |d.sources| ==> loaded[s] == Disks.Loaded(d, s)
    requires ReplayedUpTo(d, loaded, m.tables, |d.sources|)
    requires m == Opened(d).(tables := m.tables)
    ensures m == Opened(d)
  {
  }

  method Load(d: Disk) returns (r: Loading<Mem>)
    ensures r.Loaded? <==> Openable(d)
    ensures r.Loaded? ==> r.value == Opened(d)
    ensures r.Failed? ==> Flawed(d, r.error)
  {
    if |d.sources| < 2 {
      return Failed(TooFewShards);
    }
    var next := 1;
    if d.current.Some? && d.current.value >= next {
      next := d.current.value + 1;
    }
    var loaded := LoadTables(d);
    if loaded.Failed? {
      return Failed(loaded.error);
    }
    var ok;
    next, ok := ScanSources(d, next);
    if !ok {
      return Failed(MisroutedRecord);
    }
    var commits;
    commits, next, ok := ScanFusion(d.fusion, next);
    if !ok {
      return Failed(DuplicateSequence);
    }
    var tables, committed, seen;
    tables, committed, seen, ok := ReplayAll(d, commits, loaded.value);
    if !ok {
      return Failed(LogMismatch);
    }
    ok := AllSeen(d, commits, seen);
    if !ok {
      return Failed(MissingSource);
    }
    r := Loaded(Mem(tables, None, next, committed, Checkpoint(d), d.current.Some?));
    LoadedIsOpened(d, loaded.value, r.value);
  }

  method AllSeen(d: Disk, commits: map<nat, WALRecord>, seen: set<nat>) returns (ok: bool)
    requires Indexes(commits, d.fusion) && seen == SeenBy(d, |d.sources|)
    ensures ok <==> CommitsHaveSources(d)
    ensures !ok ==> exists f :: Orphaned(d, f)
  {
    ok := forall q :: q in commits && q > Checkpoint(d) ==> q in seen;
    forall f | f in d.fusion && f.sequence > Checkpoint(d) ensures f.sequence in seen <==> HasSource(d, f) {
      SeenMeansSource(d, |d.sources|, f.sequence);
    }
    if !ok {
      ghost var f :| f in d.fusion && f.sequence > Checkpoint(d) && !HasSource(d, f);
      Unseen(d, f);
    }
  }

  lemma Unseen(d: Disk, f: WALRecord)
    requires f in d.fusion && f.sequence > Checkpoint(d) && !HasSource(d, f)
    ensures Orphaned(d, f)
  {
    forall s, r | 0 <= s < |d.sources| && r in d.sources[s] ensures r.sequence != f.sequence {
      assert r.sequence in Seqs(d.sources[s]);
    }
  }
}
