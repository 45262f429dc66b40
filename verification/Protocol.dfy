/** The two-log commit protocol, snapshots and restart as a state machine over
    single disk writes, with a process crash possible between any two of them
    (db/database.go). */
module Protocol {
  import opened Words
  import opened Grids
  import opened Tables
  import opened Logs
  import opened Disks

  /** Where the running operation stands. */
  datatype Phase =
    | Idle
    | Logged(record: WALRecord)                    // in its source log only
    | Persisted(record: WALRecord)                 // in the fusion log too, memory not yet updated
    | Snapshotting(written: nat, cleared: bool)    // files written so far; old file of the next one removed
    | Unpublished                                  // snapshot.current removed, rename to be tried again

  /** tables in mem are the logical contents: a crashed shard's table is what fusion keeps of it.
      acked and interrupted are history: the operations that returned success, and those
      that a crash caught between the fusion append and the answer. */
  datatype State =
    State(disk: Disk, mem: Option<Mem>, phase: Phase, acked: seq<WALRecord>, interrupted: seq<WALRecord>)

  datatype Event =
    | Write(op: Op, key: u64, value: u64)        // the source append of a Put or Delete
    | WriteFails(op: Op, key: u64, value: u64)
    | Commit                                     // the fusion append
    | CommitFails
    | Acknowledge
    | BeginSnapshot
    | RemoveFile
    | WriteFile                                  // never over an existing file
    | Publish                                    // snapshot.current renamed into place
    | Unpublish                                  // rename failed, old snapshot.current removed
    | SnapshotFails
    | CrashShard(id: nat)
    | RecoverShard(id: nat)
    | ProcessCrash
    | Reopen

  function Start(n: nat): State {
    State(Disk(seq(n, _ => []), [], map[], None), None, Idle, [], [])
  }

  function RecordOf(m: Mem, n: nat, op: Op, key: u64, value: u64): WALRecord
    requires n > 0
  {
    WALRecord(op, m.next, Bucket(key, n), key, if op.Put? then value else 0)
  }

  /** A mutation writes a record unless its shard is down or it deletes nothing. */
  predicate Accepts(m: Mem, n: nat, op: Op, key: u64)
    requires n > 0
  {
    var s := Bucket(key, n);
    && m.failed != Some(s)
    && s < |m.tables|
    && (op.Delete? ==> key in m.tables[s])
  }

  predicate NeedsSnapshot(m: Mem) {
    m.failed.None? && !(m.hasSnapshot && m.checkpoint == m.committed)
  }

  // ----- the single steps

  /** The source append: the record is in its own log only. */
  function AfterWrite(st: State, m: Mem, r: WALRecord): State
    requires r.shard < |st.disk.sources|
  {
    st.(disk := st.disk.(sources := st.disk.sources[r.shard := st.disk.sources[r.shard] + [r]]),
        mem := Some(m.(next := m.next + 1)),
        phase := Logged(r))
  }

  /** The fusion append: the record is committed. */
  function AfterCommit(st: State, r: WALRecord): State {
    st.(disk := st.disk.(fusion := st.disk.fusion + [r]), phase := Persisted(r))
  }

  /** Memory is brought up to date and the caller told so. */
  function AfterAcknowledge(st: State, m: Mem, r: WALRecord): State
    requires r.shard < |m.tables|
  {
    st.(mem := Some(m.(tables := m.tables[r.shard := Apply(m.tables[r.shard], r)], committed := r.sequence)),
        phase := Idle,
        acked := st.acked + [r])
  }

  function AfterRemoveFile(st: State, m: Mem, k: nat): State {
    st.(disk := st.disk.(snapshots := st.disk.snapshots - {(m.committed, k)}), phase := Snapshotting(k, true))
  }

  ghost function AfterWriteFile(st: State, m: Mem, k: nat): State
    requires k < |m.tables|
  {
    var file := SnapshotFile(m.committed, Listing(m.tables[k]));
    st.(disk := st.disk.(snapshots := st.disk.snapshots[(m.committed, k) := file]), phase := Snapshotting(k + 1, false))
  }

  function AfterPublish(st: State, m: Mem): State {
    st.(disk := st.disk.(current := Some(m.committed)),
        mem := Some(m.(checkpoint := m.committed, hasSnapshot := true)),
        phase := Idle)
  }

  /** The process is gone, and with it the answer to an operation that was already committed. */
  function AfterCrash(st: State): State {
    st.(mem := None, phase := Idle, interrupted := st.interrupted + Unanswered(st))
  }

  function Unanswered(st: State): seq<WALRecord> {
    if st.phase.Persisted? then [st.phase.record] else []
  }

  ghost function Step(st: State, e: Event): Option<State> {
    if st.mem.None? then
      if e.Reopen? && Openable(st.disk) then Some(st.(mem := Some(Opened(st.disk)))) else None
    else
      RunningStep(st, st.mem.value, |st.disk.sources|, e)
  }

  ghost function RunningStep(st: State, m: Mem, n: nat, e: Event): Option<State>
    requires n == |st.disk.sources|
  {
    match e
    case Write(op, key, value) =>
      if st.phase.Idle? && n > 0 && Accepts(m, n, op, key)
      then Some(AfterWrite(st, m, RecordOf(m, n, op, key, value))) else None
    case WriteFails(op, key, value) =>
      if st.phase.Idle? && n > 0 && Accepts(m, n, op, key) then Some(st.(mem := Some(m.(next := m.next + 1)))) else None
    case Commit =>
      if st.phase.Logged? then Some(AfterCommit(st, st.phase.record)) else None
    case CommitFails =>
      if st.phase.Logged? then Some(st.(phase := Idle)) else None
    case Acknowledge =>
      if st.phase.Persisted? && st.phase.record.shard < |m.tables|
      then Some(AfterAcknowledge(st, m, st.phase.record)) else None
    case BeginSnapshot =>
      if st.phase.Idle? && NeedsSnapshot(m) then Some(st.(phase := Snapshotting(0, false))) else None
    case RemoveFile =>
      if st.phase.Snapshotting? && st.phase.written < n && !st.phase.cleared
      then Some(AfterRemoveFile(st, m, st.phase.written)) else None
    case WriteFile =>
      if st.phase.Snapshotting? && st.phase.cleared && st.phase.written < |m.tables|
         && (m.committed, st.phase.written) !in st.disk.snapshots
      then Some(AfterWriteFile(st, m, st.phase.written)) else None
    case Publish =>
      if st.phase == Snapshotting(n, false) || st.phase.Unpublished? then Some(AfterPublish(st, m)) else None
    case Unpublish =>
      if st.phase == Snapshotting(n, false)
      then Some(st.(disk := st.disk.(current := None), phase := Unpublished)) else None
    case SnapshotFails =>
      if st.phase.Snapshotting? || st.phase.Unpublished? then Some(st.(phase := Idle)) else None
    case CrashShard(id) =>
      if st.phase.Idle? && m.failed.None? && id < n then Some(st.(mem := Some(m.(failed := Some(id))))) else None
    case RecoverShard(id) =>
      if st.phase.Idle? && m.failed == Some(id) then Some(st.(mem := Some(m.(failed := None)))) else None
    case ProcessCrash =>
      Some(AfterCrash(st))
    case Reopen => None
  }

  ghost function Run(st: State, events: seq<Event>): Option<State> {
    if events == [] then Some(st)
    else
      var before := Run(st, events[..|events| - 1]);
      if before.None? then None else Step(before.value, events[|events| - 1])
  }

  // ----- the invariant

  /** The records that memory has applied. */
  function Applied(st: State): seq<WALRecord> {
    if st.phase.Persisted? && st.disk.fusion != [] then st.disk.fusion[..|st.disk.fusion| - 1] else st.disk.fusion
  }

  ghost predicate Below(log: seq<WALRecord>, bound: nat) {
    forall r :: r in log ==> r.sequence < bound
  }

  ghost predicate AllBelow(d: Disk, bound: nat) {
    && (forall s :: 0 <= s < |d.sources| ==> Below(d.sources[s], bound))
    && Below(d.fusion, bound)
    && (d.current.Some? ==> d.current.value < bound)
  }

  ghost predicate MemSound(d: Disk, m: Mem, applied: seq<WALRecord>) {
    && |m.tables| == |d.sources|
    && (forall s :: 0 <= s < |m.tables| ==> m.tables[s] == ShardTable(applied, s))
    && m.committed == Raise(0, applied)
    && m.next >= 1 && AllBelow(d, m.next)
    && (m.failed.Some? ==> m.failed.value < |d.sources|)
    && (d.current.Some? ==> m.hasSnapshot && m.checkpoint == d.current.value)
    && (m.hasSnapshot ==> m.checkpoint <= m.committed)
    && (m.hasSnapshot && m.checkpoint == m.committed ==> d.current == Some(m.committed))
  }

  /** A record on its way into the fusion log: newer than everything committed. */
  ghost predicate Pending(d: Disk, r: WALRecord) {
    && OnDisk(d, r)
    && Below(d.fusion, r.sequence)
    && (d.current.Some? ==> d.current.value < r.sequence)
  }

  ghost predicate Written(d: Disk, m: Mem, k: nat) {
    && k <= |d.sources|
    && NeedsSnapshot(m)
    && forall s :: 0 <= s < k ==> SnapshotExact(d, m.committed, s)
  }

  ghost predicate PhaseSound(d: Disk, m: Mem, phase: Phase) {
    match phase
    case Idle => true
    case Logged(r) => Pending(d, r)
    case Persisted(r) => d.fusion != [] && d.fusion[|d.fusion| - 1] == r && r.shard < |d.sources|
    case Snapshotting(k, cleared) => Written(d, m, k) && (cleared ==> k < |d.sources|)
    case Unpublished => Written(d, m, |d.sources|) && d.current.None?
  }

  /** log is a and b shuffled: every record of log is one of a or one of b, each in its order. */
  ghost predicate Shuffled(a: seq<WALRecord>, b: seq<WALRecord>, log: seq<WALRecord>) {
    if log == [] then a == [] && b == []
    else
      var rest, last := log[..|log| - 1], log[|log| - 1];
      || (a != [] && a[|a| - 1] == last && Shuffled(a[..|a| - 1], b, rest))
      || (b != [] && b[|b| - 1] == last && Shuffled(a, b[..|b| - 1], rest))
  }

  /** The log holds the acknowledged operations and those that crashes interrupted, nothing else. */
  ghost predicate Accounted(st: State) {
    Shuffled(st.acked, st.interrupted, Applied(st))
  }

  ghost predicate Inv(st: State) {
    && DiskSound(st.disk)
    && Accounted(st)
    && (st.mem.None? ==> st.phase.Idle?)
    && (st.mem.Some? ==> MemSound(st.disk, st.mem.value, Applied(st)) && PhaseSound(st.disk, st.mem.value, st.phase))
  }

  // ----- opening

  lemma {:induction false} RaiseSourcesBounds(c: nat, sources: seq<seq<WALRecord>>)
    ensures RaiseSources(c, sources) >= c
    ensures forall s, r :: 0 <= s < |sources| && r in sources[s] ==> r.sequence <= RaiseSources(c, sources)
  {
    if sources != [] {
      var last := |sources| - 1;
      RaiseSourcesBounds(c, sources[..last]);
      RaiseIsMax(RaiseSources(c, sources[..last]), sources[last]);
      forall s, r | 0 <= s < |sources| && r in sources[s] ensures r.sequence <= RaiseSources(c, sources) {
        if s < last {
          assert r in sources[..last][s];
        }
      }
    }
  }

  /** The next sequence number Open hands out is above every number on disk. */
  lemma OpenedIsFresh(d: Disk)
    ensures AllBelow(d, Opened(d).next)
  {
    var c := RaiseSources(Checkpoint(d), d.sources);
    RaiseSourcesBounds(Checkpoint(d), d.sources);
    RaiseIsMax(c, d.fusion);
  }

  lemma TailsExact(d: Disk)
    requires DiskSound(d)
    ensures forall s :: 0 <= s < |d.sources| ==> TailExact(d, s)
  {
    forall s | 0 <= s < |d.sources| ensures TailExact(d, s) {
      KeepMembers(d.sources[s], CommittedAfter(Checkpoint(d), Seqs(d.fusion)));
      forall r ensures r in Tail(d, s) <==> r in d.fusion && r.shard == s && r.sequence > Checkpoint(d) {
        TailMember(d, s, r);
      }
    }
  }

  lemma {:induction false} RaiseTailsBounds(d: Disk, k: nat)
    requires k <= |d.sources| && forall s :: 0 <= s < |d.sources| ==> TailExact(d, s)
    ensures RaiseTails(d, k) >= Checkpoint(d)
    ensures forall r :: r in d.fusion && r.shard < k && r.sequence > Checkpoint(d) ==> r.sequence <= RaiseTails(d, k)
  {
    if k > 0 {
      RaiseTailsBounds(d, k - 1);
      RaiseIsMax(RaiseTails(d, k - 1), Tail(d, k - 1));
      assert TailExact(d, k - 1);
    }
  }

  ghost predicate Reaches(log: seq<WALRecord>, x: nat) {
    exists r :: r in log && r.sequence == x
  }

  lemma {:induction false} RaiseTailsReached(d: Disk, k: nat)
    requires k <= |d.sources| && forall s :: 0 <= s < |d.sources| ==> TailExact(d, s)
    ensures RaiseTails(d, k) == Checkpoint(d) || Reaches(d.fusion, RaiseTails(d, k))
  {
    if k > 0 {
      RaiseTailsReached(d, k - 1);
      RaiseIsMax(RaiseTails(d, k - 1), Tail(d, k - 1));
      assert TailExact(d, k - 1);
      if RaiseTails(d, k) != RaiseTails(d, k - 1) {
        var r :| r in Tail(d, k - 1) && r.sequence == RaiseTails(d, k);
        assert r in d.fusion;
      }
    }
  }

  lemma RaiseUnique(log: seq<WALRecord>, x: nat)
    requires forall r :: r in log ==> r.sequence <= x
    requires x == 0 || Reaches(log, x)
    ensures Raise(0, log) == x
  {
    RaiseIsMax(0, log);
  }

  /** committed after Open is the last sequence number of the fusion log. */
  lemma OpenedCommitted(d: Disk)
    requires DiskSound(d)
    ensures Opened(d).committed == Raise(0, d.fusion)
  {
    var x := Opened(d).committed;
    TailsExact(d);
    RaiseTailsBounds(d, |d.sources|);
    RaiseTailsReached(d, |d.sources|);
    forall f | f in d.fusion ensures f.sequence <= x {
      assert f.shard < |d.sources|;
    }
    if x == Checkpoint(d) && x != 0 {
      assert d.current.value in Seqs(d.fusion);
    }
    RaiseUnique(d.fusion, x);
  }

  lemma OpenedSound(d: Disk)
    requires DiskSound(d)
    ensures MemSound(d, Opened(d), d.fusion)
  {
    forall s | 0 <= s < |d.sources| ensures Opened(d).tables[s] == ShardTable(d.fusion, s) {
      OpenedIsReplay(d, s);
    }
    OpenedIsFresh(d);
    OpenedCommitted(d);
    TailsExact(d);
    RaiseTailsBounds(d, |d.sources|);
  }

  // ----- one step at a time

  lemma ShuffledExtends(a: seq<WALRecord>, b: seq<WALRecord>, log: seq<WALRecord>, r: WALRecord)
    requires Shuffled(a, b, log)
    ensures Shuffled(a + [r], b, log + [r]) && Shuffled(a, b + [r], log + [r])
  {
    assert (log + [r])[..|log|] == log && (a + [r])[..|a|] == a && (b + [r])[..|b|] == b;
  }

  lemma WriteKeepsDisk(d: Disk, r: WALRecord)
    requires DiskSound(d) && AllBelow(d, r.sequence)
    requires r.sequence >= 1 && r.shard == Bucket(r.key, |d.sources|)
    ensures DiskSound(d.(sources := d.sources[r.shard := d.sources[r.shard] + [r]]))
  {
    var d' := d.(sources := d.sources[r.shard := d.sources[r.shard] + [r]]);
    forall s | 0 <= s < |d.sources| ensures SourceSound(d', s) {
      assert SourceSound(d, s);
    }
    forall f | f in d'.fusion ensures OnDisk(d', f) {
      assert OnDisk(d, f);
    }
    forall a | OnDisk(d', a) && a != r ensures OnDisk(d, a) && a.sequence < r.sequence {
      assert Below(d.sources[a.shard], r.sequence);
    }
    if d.current.Some? {
      forall s | 0 <= s < |d.sources| ensures SnapshotExact(d', d.current.value, s) {
        assert SnapshotExact(d, d.current.value, s);
      }
    }
  }

  lemma CommitKeepsDisk(d: Disk, r: WALRecord)
    requires DiskSound(d) && Pending(d, r)
    ensures DiskSound(d.(fusion := d.fusion + [r]))
  {
    var d' := d.(fusion := d.fusion + [r]);
    forall s | 0 <= s < |d.sources| ensures SourceSound(d', s) {
      assert SourceSound(d, s);
    }
    if d.current.Some? {
      var c := d.current.value;
      KeepStep(d.fusion, r, UpTo(c));
      assert Keep(d'.fusion, UpTo(c)) == Keep(d.fusion, UpTo(c));
      forall s | 0 <= s < |d.sources| ensures SnapshotExact(d', c, s) {
        assert SnapshotExact(d, c, s);
      }
    }
  }

  /** Files of any other sequence number than the checkpoint's may come and go. */
  lemma SnapshotsKeepDisk(d: Disk, d': Disk, c: nat)
    requires DiskSound(d) && d.current != Some(c)
    requires d' == d.(snapshots := d'.snapshots)
    requires forall b, s :: b != c && (b, s) in d.snapshots ==>
              (b, s) in d'.snapshots && d'.snapshots[(b, s)] == d.snapshots[(b, s)]
    ensures DiskSound(d')
  {
    forall s | 0 <= s < |d.sources| ensures SourceSound(d', s) {
      assert SourceSound(d, s);
    }
    if d.current.Some? {
      forall s | 0 <= s < |d.sources| ensures SnapshotExact(d', d.current.value, s) {
        assert SnapshotExact(d, d.current.value, s);
      }
    }
  }

  lemma PublishKeepsDisk(d: Disk, current: Option<nat>)
    requires DiskSound(d) && CheckpointSound(d.(current := current))
    ensures DiskSound(d.(current := current))
  {
    var d' := d.(current := current);
    forall s | 0 <= s < |d.sources| ensures SourceSound(d', s) {
      assert SourceSound(d, s);
    }
  }

  ghost predicate Running(st: State, m: Mem) {
    Inv(st) && st.mem == Some(m)
  }

  lemma WriteSound(st: State, m: Mem, r: WALRecord)
    requires Running(st, m) && st.phase.Idle?
    requires r.sequence == m.next && r.shard == Bucket(r.key, |st.disk.sources|)
    ensures Inv(AfterWrite(st, m, r))
  {
    WriteKeepsDisk(st.disk, r);
    WriteKeepsMem(st.disk, m, r, Applied(st));
    assert Applied(AfterWrite(st, m, r)) == Applied(st);
  }

  lemma WriteKeepsMem(d: Disk, m: Mem, r: WALRecord, applied: seq<WALRecord>)
    requires MemSound(d, m, applied) && r.sequence == m.next && r.shard < |d.sources|
    ensures var d' := d.(sources := d.sources[r.shard := d.sources[r.shard] + [r]]);
            MemSound(d', m.(next := m.next + 1), applied) && Pending(d', r)
  {
    var d' := d.(sources := d.sources[r.shard := d.sources[r.shard] + [r]]);
    assert Below(d.fusion, m.next + 1);
    forall s | 0 <= s < |d.sources| ensures Below(d'.sources[s], m.next + 1) {
      assert Below(d.sources[s], m.next);
    }
    assert r in d'.sources[r.shard];
  }

  lemma CommitSound(st: State, m: Mem, r: WALRecord)
    requires Running(st, m) && st.phase == Logged(r)
    ensures Inv(AfterCommit(st, r))
  {
    CommitKeepsDisk(st.disk, r);
    assert Applied(AfterCommit(st, r)) == st.disk.fusion;
    assert SourceSound(st.disk, r.shard);
  }

  /** Applying the record that was just committed brings memory level with the log. */
  lemma MemCatchesUp(d: Disk, m: Mem, before: seq<WALRecord>, r: WALRecord)
    requires d.fusion == before + [r] && FusionSound(d) && r.shard < |d.sources|
    requires MemSound(d, m, before)
    ensures var tables := m.tables[r.shard := Apply(m.tables[r.shard], r)];
            MemSound(d, m.(tables := tables, committed := r.sequence), d.fusion)
  {
    forall s | 0 <= s < |d.sources| ensures ShardTable(d.fusion, s) ==
      if r.shard == s then Apply(ShardTable(before, s), r) else ShardTable(before, s)
    {
      ShardTableStep(before, r, s);
    }
    RaisedByLast(before, r);
    RaiseIsMax(0, before);
  }

  lemma RaisedByLast(before: seq<WALRecord>, r: WALRecord)
    requires InOrder(before + [r])
    ensures Raise(0, before + [r]) == r.sequence && forall f :: f in before ==> f.sequence < r.sequence
  {
    var log := before + [r];
    forall f | f in before ensures f.sequence < r.sequence {
      var i :| 0 <= i < |before| && before[i] == f;
      assert log[i] == f && log[|before|] == r;
    }
    assert r in log;
    RaiseUnique(log, r.sequence);
  }

  lemma AcknowledgeSound(st: State, m: Mem, r: WALRecord)
    requires Running(st, m) && st.phase == Persisted(r)
    ensures r.shard < |m.tables| && Inv(AfterAcknowledge(st, m, r))
  {
    var before := Applied(st);
    assert st.disk.fusion == before + [r];
    MemCatchesUp(st.disk, m, before, r);
    AcknowledgeAccounted(st, m, r, before);
  }

  lemma AcknowledgeAccounted(st: State, m: Mem, r: WALRecord, before: seq<WALRecord>)
    requires st.disk.fusion == before + [r] && r.shard < |m.tables|
    requires Shuffled(st.acked, st.interrupted, before)
    ensures Accounted(AfterAcknowledge(st, m, r))
  {
    ShuffledExtends(st.acked, st.interrupted, before, r);
  }

  lemma SnapshotsKeepMem(d: Disk, files: map<(nat, nat), SnapshotFile>, m: Mem)
    requires MemSound(d, m, d.fusion)
    ensures MemSound(d.(snapshots := files), m, d.fusion)
  {
  }

  lemma RemoveFileSound(st: State, m: Mem, k: nat)
    requires Running(st, m) && st.phase == Snapshotting(k, false) && k < |st.disk.sources|
    ensures Inv(AfterRemoveFile(st, m, k))
  {
    var d' := AfterRemoveFile(st, m, k).disk;
    SnapshotsKeepDisk(st.disk, d', m.committed);
    SnapshotsKeepMem(st.disk, d'.snapshots, m);
    assert Applied(AfterRemoveFile(st, m, k)) == st.disk.fusion;
    RemovedWritten(st.disk, m, k);
  }

  lemma RemovedWritten(d: Disk, m: Mem, k: nat)
    requires Written(d, m, k)
    ensures Written(d.(snapshots := d.snapshots - {(m.committed, k)}), m, k)
  {
    forall s | 0 <= s < k ensures SnapshotExact(d.(snapshots := d.snapshots - {(m.committed, k)}), m.committed, s) {
      assert SnapshotExact(d, m.committed, s);
    }
  }

  lemma OneMoreWritten(d: Disk, m: Mem, k: nat)
    requires Written(d, m, k) && MemSound(d, m, d.fusion) && k < |m.tables|
    ensures var file := SnapshotFile(m.committed, Listing(m.tables[k]));
            Written(d.(snapshots := d.snapshots[(m.committed, k) := file]), m, k + 1)
  {
    var file := SnapshotFile(m.committed, Listing(m.tables[k]));
    var d' := d.(snapshots := d.snapshots[(m.committed, k) := file]);
    KeepsWholeLog(d, m);
    forall s | 0 <= s < k ensures SnapshotExact(d', m.committed, s) {
      assert SnapshotExact(d, m.committed, s);
    }
    assert SnapshotExact(d', m.committed, k);
  }

  // The log up to the last committed operation is the whole log.
  lemma KeepsWholeLog(d: Disk, m: Mem)
    requires MemSound(d, m, d.fusion)
    ensures Keep(d.fusion, UpTo(m.committed)) == d.fusion
  {
    RaiseIsMax(0, d.fusion);
    KeepAll(d.fusion, UpTo(m.committed));
  }

  lemma WriteFileSound(st: State, m: Mem, k: nat)
    requires Running(st, m) && st.phase == Snapshotting(k, true)
    ensures k < |m.tables| && Inv(AfterWriteFile(st, m, k))
  {
    OneMoreWritten(st.disk, m, k);
    SnapshotsKeepDisk(st.disk, AfterWriteFile(st, m, k).disk, m.committed);
  }

  lemma PublishSound(st: State, m: Mem)
    requires Running(st, m) && (st.phase == Snapshotting(|st.disk.sources|, false) || st.phase.Unpublished?)
    ensures Inv(AfterPublish(st, m))
  {
    var d, d' := st.disk, AfterPublish(st, m).disk;
    RaiseIsMax(0, d.fusion);
    forall s | 0 <= s < |d.sources| ensures SnapshotExact(d', m.committed, s) {
      assert SnapshotExact(d, m.committed, s);
    }
    PublishKeepsDisk(d, d'.current);
  }

  lemma UnpublishSound(st: State, m: Mem)
    requires Running(st, m) && st.phase == Snapshotting(|st.disk.sources|, false)
    ensures Inv(st.(disk := st.disk.(current := None), phase := Unpublished))
  {
    var d, d' := st.disk, st.disk.(current := None);
    forall s | 0 <= s < |d.sources| ensures SnapshotExact(d', m.committed, s) {
      assert SnapshotExact(d, m.committed, s);
    }
    PublishKeepsDisk(d, None);
  }

  /** The whole log: what memory applied and the operation under way. */
  lemma LogAccounted(st: State)
    requires Inv(st)
    ensures Shuffled(st.acked, st.interrupted + Unanswered(st), st.disk.fusion)
  {
    if st.phase.Persisted? {
      assert st.disk.fusion == Applied(st) + [st.phase.record];
      ShuffledExtends(st.acked, st.interrupted, Applied(st), st.phase.record);
    } else {
      assert st.interrupted + Unanswered(st) == st.interrupted;
    }
  }

  lemma CrashSound(st: State)
    requires Inv(st)
    ensures Inv(AfterCrash(st))
  {
    LogAccounted(st);
  }

  lemma ReopenSound(st: State)
    requires Inv(st) && st.mem.None?
    ensures Inv(st.(mem := Some(Opened(st.disk))))
  {
    OpenedSound(st.disk);
  }

  lemma WriteFailsSound(st: State, m: Mem)
    requires Running(st, m) && st.phase.Idle?
    ensures Inv(st.(mem := Some(m.(next := m.next + 1))))
  {
    forall s | 0 <= s < |st.disk.sources| ensures Below(st.disk.sources[s], m.next + 1) {
      assert Below(st.disk.sources[s], m.next);
    }
  }

  lemma GiveUpSound(st: State, m: Mem)
    requires Running(st, m) && !st.phase.Persisted?
    ensures Inv(st.(phase := Idle))
  {
    assert Applied(st.(phase := Idle)) == Applied(st);
  }

  lemma BeginSnapshotSound(st: State, m: Mem)
    requires Running(st, m) && st.phase.Idle? && NeedsSnapshot(m)
    ensures Inv(st.(phase := Snapshotting(0, false)))
  {
    assert Applied(st.(phase := Snapshotting(0, false))) == Applied(st);
    assert Written(st.disk, m, 0);
  }

  lemma ShardSound(st: State, m: Mem, failed: Option<nat>)
    requires Running(st, m) && st.phase.Idle? && (failed.Some? ==> failed.value < |st.disk.sources|)
    ensures Inv(st.(mem := Some(m.(failed := failed))))
  {
    assert MemSound(st.disk, m.(failed := failed), Applied(st));
  }

  predicate OfMutation(e: Event) {
    e.Write? || e.WriteFails? || e.Commit? || e.CommitFails? || e.Acknowledge?
  }

  predicate OfSnapshot(e: Event) {
    e.BeginSnapshot? || e.RemoveFile? || e.WriteFile? || e.Publish? || e.Unpublish? || e.SnapshotFails?
  }

  lemma MutationKeepsInv(st: State, m: Mem, e: Event)
    requires Running(st, m) && OfMutation(e) && Step(st, e).Some?
    ensures Inv(Step(st, e).value)
  {
    match e
    case Write(op, key, value) => WriteSound(st, m, RecordOf(m, |st.disk.sources|, op, key, value));
    case WriteFails(_, _, _) => WriteFailsSound(st, m);
    case Commit => CommitSound(st, m, st.phase.record);
    case CommitFails => GiveUpSound(st, m);
    case Acknowledge => AcknowledgeSound(st, m, st.phase.record);
  }

  lemma SnapshotKeepsInv(st: State, m: Mem, e: Event)
    requires Running(st, m) && OfSnapshot(e) && Step(st, e).Some?
    ensures Inv(Step(st, e).value)
  {
    match e
    case BeginSnapshot => BeginSnapshotSound(st, m);
    case RemoveFile => RemoveFileSound(st, m, st.phase.written);
    case WriteFile => WriteFileSound(st, m, st.phase.written);
    case Publish => PublishSound(st, m);
    case Unpublish => UnpublishSound(st, m);
    case SnapshotFails => GiveUpSound(st, m);
  }

  /** Every enabled step, a crash among them, keeps the invariant. */
  lemma StepKeepsInv(st: State, e: Event)
    requires Inv(st) && Step(st, e).Some?
    ensures Inv(Step(st, e).value)
  {
    if st.mem.None? {
      ReopenSound(st);
    } else {
      var m := st.mem.value;
      match e
      case CrashShard(id) => ShardSound(st, m, Some(id));
      case RecoverShard(_) => ShardSound(st, m, None);
      case ProcessCrash => CrashSound(st);
      case Reopen =>
      case _ =>
        if OfMutation(e) {
          MutationKeepsInv(st, m, e);
        } else {
          SnapshotKeepsInv(st, m, e);
        }
    }
  }

  lemma StartSound(n: nat)
    requires n >= 2
    ensures Inv(Start(n))
  {
  }

  lemma {:induction false} RunKeepsInv(st: State, events: seq<Event>)
    requires Inv(st) && Run(st, events).Some?
    ensures Inv(Run(st, events).value)
  {
    if events != [] {
      RunKeepsInv(st, events[..|events| - 1]);
      StepKeepsInv(Run(st, events[..|events| - 1]).value, events[|events| - 1]);
    }
  }

  // ----- what the invariant promises

  /** Whatever ran, crashed and reopened before, the directory opens, and opening
      it yields the map that the whole fusion log describes. */
  lemma AlwaysReopens(n: nat, events: seq<Event>)
    requires n >= 2 && Run(Start(n), events).Some?
    ensures var d := Run(Start(n), events).value.disk;
            && Openable(d) && |d.sources| == n && |Opened(d).tables| == n
            && forall key: u64 ::
                 var m := Opened(d).tables[Bucket(key, n)];
                 && (key in m <==> key in ApplyAll(map[], d.fusion))
                 && (key in m ==> m[key] == ApplyAll(map[], d.fusion)[key])
  {
    var d := Run(Start(n), events).value.disk;
    StartSound(n);
    RunKeepsInv(Start(n), events);
    SameSources(Start(n), events);
    SoundOpens(d);
    FusionRouted(d);
    forall key: u64 ensures
      var m := Opened(d).tables[Bucket(key, n)];
      && (key in m <==> key in ApplyAll(map[], d.fusion))
      && (key in m ==> m[key] == ApplyAll(map[], d.fusion)[key])
    {
      OpenedIsReplay(d, Bucket(key, n));
      ShardOfWhole(d.fusion, n, Bucket(key, n), key);
    }
  }

  lemma StepSameSources(st: State, e: Event)
    requires Step(st, e).Some?
    ensures |Step(st, e).value.disk.sources| == |st.disk.sources|
  {
  }

  lemma {:induction false} SameSources(st: State, events: seq<Event>)
    requires Run(st, events).Some?
    ensures |Run(st, events).value.disk.sources| == |st.disk.sources|
  {
    if events != [] {
      SameSources(st, events[..|events| - 1]);
      StepSameSources(Run(st, events[..|events| - 1]).value, events[|events| - 1]);
    }
  }

  /** A shuffle loses and adds nothing, and of an ordered log both parts are in its order. */
  lemma {:induction false} ShuffledMeaning(a: seq<WALRecord>, b: seq<WALRecord>, log: seq<WALRecord>)
    requires Shuffled(a, b, log)
    ensures multiset(log) == multiset(a) + multiset(b)
    ensures InOrder(log) ==> InOrder(a) && InOrder(b)
  {
    if log != [] {
      var rest, last := log[..|log| - 1], log[|log| - 1];
      assert log == rest + [last];
      if a != [] && a[|a| - 1] == last && Shuffled(a[..|a| - 1], b, rest) {
        ShuffledMeaning(a[..|a| - 1], b, rest);
        LastInOrder(a, log, b);
      } else {
        ShuffledMeaning(a, b[..|b| - 1], rest);
        LastInOrder(b, log, a);
      }
    }
  }

  lemma LastInOrder(a: seq<WALRecord>, log: seq<WALRecord>, b: seq<WALRecord>)
    requires a != [] && log != [] && a[|a| - 1] == log[|log| - 1]
    requires multiset(log[..|log| - 1]) == multiset(a[..|a| - 1]) + multiset(b)
    ensures multiset(log) == multiset(a) + multiset(b)
    ensures InOrder(log) && InOrder(a[..|a| - 1]) ==> InOrder(a)
  {
    var init, rest := a[..|a| - 1], log[..|log| - 1];
    assert a == init + [a[|a| - 1]] && log == rest + [log[|log| - 1]];
    forall i | 0 <= i < |init| && InOrder(log) ensures a[i].sequence < a[|a| - 1].sequence {
      assert init[i] in multiset(rest);
      var j :| 0 <= j < |rest| && rest[j] == init[i];
      assert log[j] == a[i];
    }
    if InOrder(log) && InOrder(init) {
      forall i, j | 0 <= i < j < |a| ensures a[i].sequence < a[j].sequence {
        assert j < |init| ==> init[i].sequence < init[j].sequence;
      }
    }
  }

  /** After any run the log is the acknowledged operations shuffled with those that
      were committed but unanswered at a crash, or are so now: nothing acknowledged
      is lost or reordered, and nothing else is there. */
  lemma AcknowledgedSurvive(n: nat, events: seq<Event>)
    requires n >= 2 && Run(Start(n), events).Some?
    ensures var st := Run(Start(n), events).value;
            var lost := st.interrupted + Unanswered(st);
            && Shuffled(st.acked, lost, st.disk.fusion)
            && multiset(st.disk.fusion) == multiset(st.acked) + multiset(lost)
            && InOrder(st.disk.fusion) && InOrder(st.acked) && InOrder(lost)
  {
    var st := Run(Start(n), events).value;
    StartSound(n);
    RunKeepsInv(Start(n), events);
    LogAccounted(st);
    ShuffledMeaning(st.acked, st.interrupted + Unanswered(st), st.disk.fusion);
  }

  function Crashes(events: seq<Event>): nat {
    if events == [] then 0
    else Crashes(events[..|events| - 1]) + if events[|events| - 1].ProcessCrash? then 1 else 0
  }

  lemma StepInterrupts(st: State, e: Event)
    requires Step(st, e).Some?
    ensures Step(st, e).value.interrupted == st.interrupted + if e.ProcessCrash? then Unanswered(st) else []
  {
  }

  lemma {:induction false} RunInterrupts(st: State, events: seq<Event>)
    requires Run(st, events).Some?
    ensures |Run(st, events).value.interrupted| <= |st.interrupted| + Crashes(events)
  {
    if events != [] {
      RunInterrupts(st, events[..|events| - 1]);
      StepInterrupts(Run(st, events[..|events| - 1]).value, events[|events| - 1]);
    }
  }

  lemma {:induction false} ShuffledSize(a: seq<WALRecord>, b: seq<WALRecord>, log: seq<WALRecord>)
    requires Shuffled(a, b, log)
    ensures |log| == |a| + |b|
  {
    if log != [] {
      var rest, last := log[..|log| - 1], log[|log| - 1];
      if a != [] && a[|a| - 1] == last && Shuffled(a[..|a| - 1], b, rest) {
        ShuffledSize(a[..|a| - 1], b, rest);
      } else {
        ShuffledSize(a, b[..|b| - 1], rest);
      }
    }
  }

  /** Each crash leaves at most one operation unanswered, so the log is never longer than the
      acknowledged operations by more than the crashes so far and the operation under way. */
  lemma OnePerCrash(n: nat, events: seq<Event>)
    requires n >= 2 && Run(Start(n), events).Some?
    ensures var st := Run(Start(n), events).value;
            && |st.interrupted| <= Crashes(events)
            && |st.acked| <= |st.disk.fusion| <= |st.acked| + Crashes(events) + |Unanswered(st)|
  {
    var st := Run(Start(n), events).value;
    AcknowledgedSurvive(n, events);
    RunInterrupts(Start(n), events);
    ShuffledSize(st.acked, st.interrupted + Unanswered(st), st.disk.fusion);
  }

  /** Between operations memory holds what the log describes, and the next
      sequence number is above every number on disk. */
  lemma MemoryFollowsLog(n: nat, events: seq<Event>)
    requires n >= 2 && Run(Start(n), events).Some?
    requires Run(Start(n), events).value.mem.Some?
    ensures var st := Run(Start(n), events).value;
            && AllBelow(st.disk, st.mem.value.next)
            && (st.phase.Idle? ==> forall s :: 0 <= s < n ==>
                  |st.mem.value.tables| == n && st.mem.value.tables[s] == ShardTable(st.disk.fusion, s))
  {
    StartSound(n);
    RunKeepsInv(Start(n), events);
    SameSources(Start(n), events);
  }

  /** A snapshot that is skipped as up to date is on disk. */
  lemma SkippedSnapshotIsPublished(n: nat, events: seq<Event>)
    requires n >= 2 && Run(Start(n), events).Some?
    requires Run(Start(n), events).value.mem.Some?
    ensures var st := Run(Start(n), events).value;
            var m := st.mem.value;
            m.hasSnapshot && m.checkpoint == m.committed ==> st.disk.current == Some(m.committed)
  {
    StartSound(n);
    RunKeepsInv(Start(n), events);
  }

  /** A source record left behind uncommitted. */
  ghost predicate Orphan(st: State, r: WALRecord) {
    OnDisk(st.disk, r) && r !in st.disk.fusion && st.phase != Logged(r)
  }

  lemma OrphanStep(st: State, e: Event, r: WALRecord)
    requires Inv(st) && Step(st, e).Some? && Orphan(st, r)
    ensures Orphan(Step(st, e).value, r)
  {
    if st.mem.Some? && e.Write? {
      assert Below(st.disk.sources[r.shard], st.mem.value.next);
    }
  }

  /** It is never committed later, however often the directory is reopened:
      no run hands its sequence number out again. */
  lemma {:induction false} OrphanStaysOut(st: State, events: seq<Event>, r: WALRecord)
    requires Inv(st) && Run(st, events).Some? && Orphan(st, r)
    ensures Orphan(Run(st, events).value, r)
    ensures r !in Run(st, events).value.disk.fusion
  {
    if events != [] {
      OrphanStaysOut(st, events[..|events| - 1], r);
      RunKeepsInv(st, events[..|events| - 1]);
      OrphanStep(Run(st, events[..|events| - 1]).value, events[|events| - 1], r);
    }
  }
}
