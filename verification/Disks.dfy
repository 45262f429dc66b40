/** What a database directory holds, what opening it yields, and when it opens
    (db/database.go Open, storage/wal.go, storage/snapshot.go). */
module Disks {
  import opened Words
  import opened Grids
  import opened Tables
  import opened Logs

  datatype SnapshotFile = SnapshotFile(sequence: nat, records: seq<KVRecord>)

  /** shard-N.wal, fusion.wal, snapshot-SEQ-shard-N.bin and snapshot.current. */
  datatype Disk = Disk(
    sources: seq<seq<WALRecord>>,
    fusion: seq<WALRecord>,
    snapshots: map<(nat, nat), SnapshotFile>,
    current: Option<nat>)

  datatype Mem = Mem(
    tables: seq<Table>,
    failed: Option<nat>,
    next: nat,
    committed: nat,
    checkpoint: nat,
    hasSnapshot: bool)

  function Checkpoint(d: Disk): nat {
    if d.current.Some? then d.current.value else 0
  }

  // ----- what Open computes

  function TableOf(records: seq<KVRecord>): Table {
    if records == [] then map[]
    else
      var last := records[|records| - 1];
      With(TableOf(records[..|records| - 1]), last.key, last.value)
  }

  function Loaded(d: Disk, s: nat): Table {
    if d.current.Some? && (d.current.value, s) in d.snapshots
    then TableOf(d.snapshots[(d.current.value, s)].records)
    else map[]
  }

  /** The source records that Open applies to shard s. */
  function Tail(d: Disk, s: nat): seq<WALRecord>
    requires s < |d.sources|
  {
    Keep(d.sources[s], CommittedAfter(Checkpoint(d), Seqs(d.fusion)))
  }

  function OpenedTable(d: Disk, s: nat): Table
    requires s < |d.sources|
  {
    ApplyAll(Loaded(d, s), Tail(d, s))
  }

  function RaiseSources(c: nat, sources: seq<seq<WALRecord>>): nat {
    if sources == [] then c else Raise(RaiseSources(c, sources[..|sources| - 1]), sources[|sources| - 1])
  }

  function RaiseTails(d: Disk, k: nat): nat
    requires k <= |d.sources|
  {
    if k == 0 then Checkpoint(d) else Raise(RaiseTails(d, k - 1), Tail(d, k - 1))
  }

  function Opened(d: Disk): Mem {
    Mem(seq(|d.sources|, s requires 0 <= s < |d.sources| => OpenedTable(d, s)),
        None,
        Raise(RaiseSources(Checkpoint(d), d.sources), d.fusion) + 1,
        RaiseTails(d, |d.sources|),
        Checkpoint(d),
        d.current.Some?)
  }

  // ----- when Open succeeds

  ghost predicate DistinctKeys(records: seq<KVRecord>) {
    forall i, j :: 0 <= i < j < |records| ==> records[i].key != records[j].key
  }

  ghost predicate SnapshotLoads(d: Disk, s: nat) {
    && d.current.Some? && (d.current.value, s) in d.snapshots
    && var file := d.snapshots[(d.current.value, s)];
       && file.sequence == d.current.value
       && DistinctKeys(file.records)
       && (|d.sources| > 0 && forall r :: r in file.records ==> Bucket(r.key, |d.sources|) == s)
  }

  ghost predicate SourceRouted(d: Disk, s: nat)
    requires s < |d.sources|
  {
    forall r :: r in d.sources[s] ==> r.shard == s && Bucket(r.key, |d.sources|) == s
  }

  ghost predicate DistinctSequences(log: seq<WALRecord>) {
    forall i, j :: 0 <= i < j < |log| ==> log[i].sequence != log[j].sequence
  }

  // A committed source record is the fusion log's record of that number.
  ghost predicate SourceAgrees(d: Disk, s: nat)
    requires s < |d.sources|
  {
    forall r, f :: r in d.sources[s] && f in d.fusion && r.sequence > Checkpoint(d) && r.sequence == f.sequence ==>
              r == f
  }

  ghost predicate HasSource(d: Disk, f: WALRecord) {
    exists s :: 0 <= s < |d.sources| && f.sequence in Seqs(d.sources[s])
  }

  ghost predicate SnapshotsLoad(d: Disk) {
    d.current.Some? ==> forall s :: 0 <= s < |d.sources| ==> SnapshotLoads(d, s)
  }

  ghost predicate SourcesRouted(d: Disk) {
    forall s :: 0 <= s < |d.sources| ==> SourceRouted(d, s)
  }

  ghost predicate SourcesAgree(d: Disk) {
    forall s :: 0 <= s < |d.sources| ==> SourceAgrees(d, s)
  }

  ghost predicate CommitsHaveSources(d: Disk) {
    forall f :: f in d.fusion && f.sequence > Checkpoint(d) ==> HasSource(d, f)
  }

  ghost predicate Openable(d: Disk) {
    && |d.sources| >= 2 && SnapshotsLoad(d) && SourcesRouted(d) && DistinctSequences(d.fusion)
    && SourcesAgree(d) && CommitsHaveSources(d)
  }

  // ----- what it means to succeed

  /** What Open applies to shard s is the fusion log's part for it after the checkpoint. */
  ghost predicate TailExact(d: Disk, s: nat)
    requires s < |d.sources|
  {
    forall r :: r in Tail(d, s) <==> r in d.fusion && r.shard == s && r.sequence > Checkpoint(d)
  }

  lemma {:induction false} TableOfKeys(records: seq<KVRecord>)
    ensures forall k :: k in TableOf(records) <==> exists i :: 0 <= i < |records| && records[i].key == k
  {
    if records != [] {
      var init := records[..|records| - 1];
      TableOfKeys(init);
      assert forall i :: 0 <= i < |init| ==> records[i] == init[i];
    }
  }

  lemma {:induction false} TableOfSize(records: seq<KVRecord>)
    ensures |TableOf(records).Keys| <= |records|
    ensures |TableOf(records).Keys| == |records| <==> DistinctKeys(records)
  {
    if records != [] {
      var init, last := records[..|records| - 1], records[|records| - 1];
      TableOfSize(init);
      TableOfKeys(init);
      assert TableOf(records).Keys == TableOf(init).Keys + {last.key};
      assert DistinctKeys(records) <==> DistinctKeys(init) && last.key !in TableOf(init) by {
        assert forall i :: 0 <= i < |init| ==> records[i] == init[i];
      }
    }
  }

  /** The checkpoint's snapshots are complete: each holds as many keys as records, all of them its shard's. */
  ghost predicate Loads(d: Disk, c: nat, s: nat) {
    && |d.sources| > 0 && (c, s) in d.snapshots && d.snapshots[(c, s)].sequence == c
    && |Loaded(d, s).Keys| == |d.snapshots[(c, s)].records|
    && forall key :: key in Loaded(d, s) ==> key % |d.sources| == s
  }

  lemma SnapshotMeaning(d: Disk, s: nat)
    requires |d.sources| > 0 && d.current.Some?
    ensures SnapshotLoads(d, s) <==> Loads(d, d.current.value, s)
  {
    if (d.current.value, s) in d.snapshots {
      var records := d.snapshots[(d.current.value, s)].records;
      TableOfKeys(records);
      TableOfSize(records);
      assert forall i :: 0 <= i < |records| ==> records[i] in records && records[i].key in TableOf(records);
    }
  }

  lemma TailMeaning(d: Disk, s: nat)
    requires s < |d.sources| && SourceRouted(d, s) && DistinctSequences(d.fusion)
    ensures forall r :: r in Tail(d, s) ==> r in d.sources[s] && r.shard == s && r.sequence > Checkpoint(d)
    ensures SourceAgrees(d, s) <==> forall r :: r in Tail(d, s) ==> r in d.fusion
  {
    KeepMembers(d.sources[s], CommittedAfter(Checkpoint(d), Seqs(d.fusion)));
    if forall r :: r in Tail(d, s) ==> r in d.fusion {
      forall r, f | r in d.sources[s] && f in d.fusion && r.sequence > Checkpoint(d) && r.sequence == f.sequence
        ensures r == f
      {
        assert r in Tail(d, s);
      }
    }
  }

  lemma DistinctRecords(log: seq<WALRecord>, a: WALRecord, b: WALRecord)
    requires DistinctSequences(log) && a in log && b in log && a.sequence == b.sequence
    ensures a == b
  {
    var i :| 0 <= i < |log| && log[i] == a;
    var j :| 0 <= j < |log| && log[j] == b;
    assert i == j || i < j || j < i;
  }

  /** A commit that some source log has a record of is applied, to its own shard. */
  lemma CommitApplied(d: Disk, f: WALRecord)
    requires SourcesRouted(d) && DistinctSequences(d.fusion) && SourcesAgree(d)
    requires f in d.fusion && f.sequence > Checkpoint(d) && HasSource(d, f)
    ensures f.shard < |d.sources| && f in Tail(d, f.shard)
  {
    var s :| 0 <= s < |d.sources| && f.sequence in Seqs(d.sources[s]);
    var r :| r in d.sources[s] && r.sequence == f.sequence;
    assert SourceAgrees(d, s) && SourceRouted(d, s);
    assert r == f;
    KeepMembers(d.sources[s], CommittedAfter(Checkpoint(d), Seqs(d.fusion)));
  }

  ghost predicate AllTailsExact(d: Disk) {
    && (forall f :: f in d.fusion && f.sequence > Checkpoint(d) ==> f.shard < |d.sources|)
    && (forall s :: 0 <= s < |d.sources| ==> TailExact(d, s))
  }

  lemma TailsMeaning(d: Disk)
    requires SourcesRouted(d) && DistinctSequences(d.fusion)
    ensures SourcesAgree(d) && CommitsHaveSources(d) <==> AllTailsExact(d)
  {
    if SourcesAgree(d) && CommitsHaveSources(d) {
      forall f | f in d.fusion && f.sequence > Checkpoint(d) ensures f.shard < |d.sources| && f in Tail(d, f.shard) {
        CommitApplied(d, f);
      }
      forall s | 0 <= s < |d.sources| ensures TailExact(d, s) {
        TailMeaning(d, s);
      }
    }
    if AllTailsExact(d) {
      forall s | 0 <= s < |d.sources| ensures SourceAgrees(d, s) {
        assert SourceRouted(d, s) && TailExact(d, s);
        TailMeaning(d, s);
      }
      forall f | f in d.fusion && f.sequence > Checkpoint(d) ensures HasSource(d, f) {
        TailMeaning(d, f.shard);
        assert TailExact(d, f.shard);
        assert f.sequence in Seqs(d.sources[f.shard]);
      }
    }
  }

  lemma SnapshotsMeaning(d: Disk)
    requires |d.sources| > 0
    ensures SnapshotsLoad(d) <==> forall c, s :: d.current == Some(c) && 0 <= s < |d.sources| ==> Loads(d, c, s)
  {
    if d.current.Some? {
      forall s | 0 <= s < |d.sources| ensures SnapshotLoads(d, s) <==> Loads(d, d.current.value, s) {
        SnapshotMeaning(d, s);
      }
    }
  }

  /** Open accepts a directory exactly when the records it applies to the shards are the
      commits after the checkpoint, no more and no fewer, and everything is in its own shard. */
  lemma OpenableExactly(d: Disk)
    ensures Openable(d) <==>
            && |d.sources| >= 2
            && (forall c, s :: d.current == Some(c) && 0 <= s < |d.sources| ==> Loads(d, c, s))
            && (forall s, r :: 0 <= s < |d.sources| && r in d.sources[s] ==> r.shard == s == r.key % |d.sources|)
            && (forall i, j :: 0 <= i < j < |d.fusion| ==> d.fusion[i].sequence != d.fusion[j].sequence)
            && (forall f :: f in d.fusion && f.sequence > Checkpoint(d) ==> f.shard < |d.sources|)
            && (forall s :: 0 <= s < |d.sources| ==> TailExact(d, s))
  {
    if |d.sources| >= 2 {
      SnapshotsMeaning(d);
      RoutedMeaning(d);
      if SourcesRouted(d) && DistinctSequences(d.fusion) {
        TailsMeaning(d);
      }
    }
  }

  /** So nothing committed is forgotten, and nothing else is taken for committed. */
  lemma OpenableSound(d: Disk)
    requires Openable(d)
    ensures forall f :: f in d.fusion && f.sequence > Checkpoint(d) ==> f.shard < |d.sources| && f in Tail(d, f.shard)
    ensures forall s, f :: 0 <= s < |d.sources| && f in Tail(d, s) ==>
              f in d.fusion && f.shard == s && f.sequence > Checkpoint(d)
  {
    TailsMeaning(d);
    forall f | f in d.fusion && f.sequence > Checkpoint(d) ensures f.shard < |d.sources| && f in Tail(d, f.shard) {
      assert TailExact(d, f.shard);
    }
    forall s, f | 0 <= s < |d.sources| && f in Tail(d, s)
      ensures f in d.fusion && f.shard == s && f.sequence > Checkpoint(d)
    {
      assert TailExact(d, s);
    }
  }

  lemma RoutedMeaning(d: Disk)
    requires |d.sources| > 0
    ensures SourcesRouted(d) <==>
            forall s, r :: 0 <= s < |d.sources| && r in d.sources[s] ==> r.shard == s == r.key % |d.sources|
  {
    forall s | 0 <= s < |d.sources|
      ensures SourceRouted(d, s) <==> forall r :: r in d.sources[s] ==> r.shard == s == r.key % |d.sources|
    {
    }
  }

  lemma {:induction false} AppliedKeys(m: Table, log: seq<WALRecord>, key: u64)
    requires key in ApplyAll(m, log)
    ensures key in m || exists r :: r in log && r.key == key
  {
    if log != [] {
      var init, r := log[..|log| - 1], log[|log| - 1];
      if key == r.key {
        assert r in log;
      } else {
        AppliedKeys(m, init, key);
        assert forall x :: x in init ==> x in log;
      }
    }
  }

  /** Whatever directory Open accepts, every key it loads is in its own shard. */
  lemma OpenedRouted(d: Disk)
    requires Openable(d)
    ensures forall s, key :: 0 <= s < |d.sources| && key in OpenedTable(d, s) ==> key % |d.sources| == s
  {
    forall s, key | 0 <= s < |d.sources| && key in OpenedTable(d, s) ensures key % |d.sources| == s {
      AppliedKeys(Loaded(d, s), Tail(d, s), key);
      TailMeaning(d, s);
      if key in Loaded(d, s) {
        assert d.current.Some?;
        SnapshotMeaning(d, s);
      }
    }
  }

  /** The numbers that Open sees. */
  ghost predicate Numbered(d: Disk, q: nat) {
    q == Checkpoint(d) || q in Seqs(d.fusion) || exists s :: 0 <= s < |d.sources| && q in Seqs(d.sources[s])
  }

  lemma RaiseMeaning(c: nat, log: seq<WALRecord>)
    ensures Raise(c, log) >= c && forall q :: q in Seqs(log) ==> q <= Raise(c, log)
    ensures Raise(c, log) == c || Raise(c, log) in Seqs(log)
  {
    RaiseIsMax(c, log);
  }

  lemma {:induction false} RaiseSourcesMeaning(c: nat, sources: seq<seq<WALRecord>>)
    ensures RaiseSources(c, sources) >= c
    ensures forall s :: 0 <= s < |sources| ==> forall q :: q in Seqs(sources[s]) ==> q <= RaiseSources(c, sources)
    ensures RaiseSources(c, sources) == c ||
            exists s :: 0 <= s < |sources| && RaiseSources(c, sources) in Seqs(sources[s])
  {
    if sources != [] {
      var last := |sources| - 1;
      var init := sources[..last];
      RaiseSourcesMeaning(c, init);
      RaiseMeaning(RaiseSources(c, init), sources[last]);
      assert forall s :: 0 <= s < last ==> init[s] == sources[s];
    }
  }

  /** The next number is one more than the highest number on disk. */
  lemma OpenedNext(d: Disk)
    ensures exists q: nat :: Numbered(d, q) && Opened(d).next == q + 1
    ensures forall q: nat :: Numbered(d, q) ==> q < Opened(d).next
  {
    RaiseSourcesMeaning(Checkpoint(d), d.sources);
    RaiseMeaning(RaiseSources(Checkpoint(d), d.sources), d.fusion);
    assert Numbered(d, Raise(RaiseSources(Checkpoint(d), d.sources), d.fusion));
  }

  // ----- the invariant of every disk the database ever leaves behind

  ghost predicate SourceSound(d: Disk, s: nat)
    requires s < |d.sources|
  {
    && InOrder(d.sources[s])
    && forall r :: r in d.sources[s] ==> r.sequence >= 1 && r.shard == s && Bucket(r.key, |d.sources|) == s
  }

  // The record is in its own shard's log.
  ghost predicate OnDisk(d: Disk, r: WALRecord) {
    r.shard < |d.sources| && r in d.sources[r.shard]
  }

  ghost predicate SequencesUnique(d: Disk) {
    forall a, b :: OnDisk(d, a) && OnDisk(d, b) && a.sequence == b.sequence ==> a == b
  }

  ghost predicate FusionSound(d: Disk) {
    InOrder(d.fusion) && forall f :: f in d.fusion ==> OnDisk(d, f)
  }

  /** The snapshot of shard s at c holds what the fusion log up to c made of it. */
  ghost predicate SnapshotExact(d: Disk, c: nat, s: nat) {
    && (c, s) in d.snapshots
    && d.snapshots[(c, s)] == SnapshotFile(c, Listing(ShardTable(Keep(d.fusion, UpTo(c)), s)))
  }

  ghost predicate CheckpointSound(d: Disk) {
    d.current.Some? ==>
      var c := d.current.value;
      && (c == 0 || c in Seqs(d.fusion))
      && forall s :: 0 <= s < |d.sources| ==> SnapshotExact(d, c, s)
  }

  ghost predicate DiskSound(d: Disk) {
    && |d.sources| >= 2
    && (forall s :: 0 <= s < |d.sources| ==> SourceSound(d, s))
    && SequencesUnique(d)
    && FusionSound(d)
    && CheckpointSound(d)
  }

  lemma FusionRouted(d: Disk)
    requires DiskSound(d)
    ensures Routed(d.fusion, |d.sources|)
    ensures forall f :: f in d.fusion ==> f.sequence >= 1
  {
    forall f | f in d.fusion ensures f.shard == Bucket(f.key, |d.sources|) && f.sequence >= 1 {
      assert OnDisk(d, f) && SourceSound(d, f.shard);
    }
  }

  // ----- sound disks open

  /** Loading a snapshot of a table gives back the table. */
  lemma {:induction false} TableOfListing(rs: seq<KVRecord>, m: Table)
    requires Lists(rs, m)
    ensures TableOf(rs) == m
  {
    if rs == [] {
      assert forall k :: k in m ==> KVRecord(k, m[k]) in rs;
    } else {
      var last := rs[|rs| - 1];
      ListsInit(rs, m);
      TableOfListing(rs[..|rs| - 1], WithoutKey(m, last.key));
    }
  }

  lemma ShardKeysRoute(log: seq<WALRecord>, n: nat, s: nat)
    requires Routed(log, n) && s < n
    ensures forall k :: k in ShardTable(log, s) ==> Bucket(k, n) == s
  {
    forall k: u64 | k in ShardTable(log, s) ensures Bucket(k, n) == s {
      ShardOfWhole(log, n, s, k);
    }
  }

  lemma SoundSnapshotLoads(d: Disk, s: nat)
    requires DiskSound(d) && d.current.Some? && s < |d.sources|
    ensures SnapshotLoads(d, s)
    ensures Loaded(d, s) == ShardTable(Keep(d.fusion, UpTo(d.current.value)), s)
  {
    var c, n := d.current.value, |d.sources|;
    var first := Keep(d.fusion, UpTo(c));
    var m := ShardTable(first, s);
    assert SnapshotExact(d, c, s);
    FusionRouted(d);
    KeepMembers(d.fusion, UpTo(c));
    assert Routed(first, n);
    ShardKeysRoute(first, n, s);
    ListingLists(m);
    TableOfListing(Listing(m), m);
  }

  lemma SoundOpens(d: Disk)
    requires DiskSound(d)
    ensures Openable(d)
  {
    if d.current.Some? {
      forall s | 0 <= s < |d.sources| ensures SnapshotLoads(d, s) {
        SoundSnapshotLoads(d, s);
      }
    }
    forall s | 0 <= s < |d.sources| ensures SourceRouted(d, s) && SourceAgrees(d, s) {
      assert SourceSound(d, s);
      forall r, f | r in d.sources[s] && f in d.fusion && r.sequence == f.sequence ensures r == f {
        assert OnDisk(d, r) && OnDisk(d, f);
      }
    }
    forall f | f in d.fusion ensures HasSource(d, f) {
      assert OnDisk(d, f);
      assert f.sequence in Seqs(d.sources[f.shard]);
    }
  }

  /** What Open applies to a shard is exactly the fusion log's part for that shard after the checkpoint. */
  lemma TailIsFusionTail(d: Disk, s: nat)
    requires DiskSound(d) && s < |d.sources|
    ensures Keep(d.fusion, OnShard(s)) == Keep(Keep(d.fusion, UpTo(Checkpoint(d))), OnShard(s)) + Tail(d, s)
  {
    var c := Checkpoint(d);
    var mine := Keep(d.fusion, OnShard(s));
    assert SourceSound(d, s);
    KeepMembers(d.fusion, OnShard(s));
    KeepInOrder(d.fusion, OnShard(s));
    KeepMembers(d.sources[s], CommittedAfter(c, Seqs(d.fusion)));
    KeepInOrder(d.sources[s], CommittedAfter(c, Seqs(d.fusion)));
    forall r ensures r in Tail(d, s) <==> r in mine && r.sequence > c {
      TailMember(d, s, r);
    }
    SplitAt(mine, c, Tail(d, s));
    KeepCommutes(d.fusion, c, s);
  }

  lemma TailMember(d: Disk, s: nat, r: WALRecord)
    requires DiskSound(d) && s < |d.sources|
    ensures r in d.sources[s] && r.sequence in Seqs(d.fusion) <==> r in d.fusion && r.shard == s
  {
    assert SourceSound(d, s);
    if r in d.sources[s] && r.sequence in Seqs(d.fusion) {
      var f :| f in d.fusion && f.sequence == r.sequence;
      assert OnDisk(d, r) && OnDisk(d, f);
    } else if r in d.fusion {
      assert OnDisk(d, r);
    }
  }

  lemma KeepCommutes(log: seq<WALRecord>, c: nat, s: nat)
    requires InOrder(log)
    ensures Keep(Keep(log, OnShard(s)), UpTo(c)) == Keep(Keep(log, UpTo(c)), OnShard(s))
  {
    var a, b := Keep(log, OnShard(s)), Keep(log, UpTo(c));
    KeepMembers(log, OnShard(s));
    KeepInOrder(log, OnShard(s));
    KeepMembers(log, UpTo(c));
    KeepInOrder(log, UpTo(c));
    KeepMembers(a, UpTo(c));
    KeepInOrder(a, UpTo(c));
    KeepMembers(b, OnShard(s));
    KeepInOrder(b, OnShard(s));
    OrderUnique(Keep(a, UpTo(c)), Keep(b, OnShard(s)));
  }

  /** Restart equivalence: snapshot plus committed tail, shard after shard, is the
      whole fusion log replayed from nothing; with no checkpoint it is the same. */
  lemma OpenedIsReplay(d: Disk, s: nat)
    requires DiskSound(d) && s < |d.sources|
    ensures OpenedTable(d, s) == ShardTable(d.fusion, s)
  {
    var c := Checkpoint(d);
    var first := Keep(d.fusion, UpTo(c));
    TailIsFusionTail(d, s);
    ApplyAppend(map[], Keep(first, OnShard(s)), Tail(d, s));
    if d.current.Some? {
      SoundSnapshotLoads(d, s);
    } else {
      FusionRouted(d);
      KeepNone(d.fusion, UpTo(c));
    }
  }
}
