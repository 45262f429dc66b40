/** Writing a snapshot and publishing it (db/database.go Snapshot, storage/snapshot.go). */
module Publishing {
  import opened Grids
  import opened Tables
  import opened Disks
  import opened Protocol
  import opened Operations
  import opened Shards

  /** The files of one directory. */
  class Directory {
    var disk: Disk

    constructor (disk: Disk)
      ensures this.disk == disk
    {
      this.disk := disk;
    }
  }

  // A snapshot under way: events have led from st to now, of which the directory holds the files.
  ghost predicate UnderWay(dir: Directory, st: State, m: Mem, events: seq<Event>, now: State)
    reads dir
  {
    && Run(st, events) == Some(now) && dir.disk == now.disk
    && now.mem == Some(m) && now.acked == st.acked
    && now.disk.sources == st.disk.sources && now.disk.fusion == st.disk.fusion
  }

  lemma Continues(dir: Directory, st: State, m: Mem, events: seq<Event>, now: State, e: Event, after: State)
    requires UnderWay(dir, st, m, events, now) && Step(now, e) == Some(after)
    requires after.disk == now.disk && after.mem == now.mem && after.acked == now.acked
    ensures UnderWay(dir, st, m, events + [e], after)
  {
    RunMore(st, events, now, e, after);
  }

  // One shard's file, the old one removed first.
  method WriteOne(dir: Directory, shard: Shard, id: nat, committed: nat, works: nat -> bool, ghost st: State,
                  ghost m: Mem, ghost before: seq<Event>, ghost from: State)
    returns (ok: bool, ghost events: seq<Event>, ghost now: State)
    requires UnderWay(dir, st, m, before, from) && from.phase == Snapshotting(id, false)
    requires id < |from.disk.sources| == |m.tables| && shard.data == m.tables[id] && m.committed == committed
    modifies dir
    ensures UnderWay(dir, st, m, events, now)
    ensures if ok then now.phase == Snapshotting(id + 1, false) else now.phase.Snapshotting?
    ensures works(2 * id) && works(2 * id + 1) ==> ok
  {
    if !works(2 * id) {
      return false, before, from;
    }
    now, events := AfterRemoveFile(from, m, id), before + [RemoveFile];
    RunMore(st, before, from, RemoveFile, now);
    dir.disk := dir.disk.(snapshots := dir.disk.snapshots - {(committed, id)});
    if !works(2 * id + 1) {
      return false, events, now;
    }
    var records := RecordsFromMap(shard.data);
    ghost var written := AfterWriteFile(now, m, id);
    RunMore(st, events, now, WriteFile, written);
    dir.disk := dir.disk.(snapshots := dir.disk.snapshots[(committed, id) := SnapshotFile(committed, records)]);
    ok, now, events := true, written, events + [WriteFile];
  }

  /** One file for each shard; works says which file operations succeed. */
  method WriteFiles(dir: Directory, shards: seq<Shard>, committed: nat, works: nat -> bool, ghost st: State,
                    ghost m: Mem)
    returns (ok: bool, ghost events: seq<Event>, ghost now: State)
    requires st.mem == Some(m) && st.phase.Idle? && NeedsSnapshot(m) && m.committed == committed
    requires dir.disk == st.disk && |shards| == |st.disk.sources| == |m.tables|
    requires forall i :: 0 <= i < |shards| ==> shards[i].data == m.tables[i]
    modifies dir
    ensures UnderWay(dir, st, m, events, now)
    ensures now.phase == if ok then Snapshotting(|shards|, false) else Idle
    ensures (forall i :: works(i)) ==> ok
  {
    now := st.(phase := Snapshotting(0, false));
    events := [BeginSnapshot];
    RunOne(st, BeginSnapshot);
    for id := 0 to |shards|
      invariant UnderWay(dir, st, m, events, now) && now.phase == Snapshotting(id, false)
      invariant forall i :: 0 <= i < |shards| ==> shards[i].data == m.tables[i]
    {
      ok, events, now := WriteOne(dir, shards[id], id, committed, works, st, m, events, now);
      if !ok {
        ghost var idle := now.(phase := Idle);
        Continues(dir, st, m, events, now, SnapshotFails, idle);
        return false, events + [SnapshotFails], idle;
      }
    }
    ok := true;
  }

  /** WriteCheckpoint: the temporary file renamed into place, or, when the rename
      fails, the old checkpoint removed and the rename tried once more. */
  method WriteCheckpoint(dir: Directory, n: nat, committed: nat, works: nat -> bool,
                         ghost st: State, ghost m: Mem, ghost before: seq<Event>, ghost from: State)
    returns (ok: bool, ghost events: seq<Event>, ghost now: State)
    requires UnderWay(dir, st, m, before, from) && from.phase == Snapshotting(n, false) && n == |from.disk.sources|
    requires m.committed == committed
    modifies dir
    ensures Run(st, events) == Some(now) && dir.disk == now.disk && now.phase.Idle?
    ensures now.mem == Some(if ok then m.(checkpoint := committed, hasSnapshot := true) else m)
    ensures ok ==> now.disk.current == Some(committed)
    ensures now.disk.sources == st.disk.sources && now.disk.fusion == st.disk.fusion
    ensures (forall i :: works(i)) ==> ok
  {
    events, now, ok := before, from, works(2 * n);
    if ok && !works(2 * n + 1) {
      ok, events, now := RemoveCurrent(dir, n, works, st, m, before, from);
    }
    if ok {
      RunMore(st, events, now, Publish, AfterPublish(now, m));
      dir.disk := dir.disk.(current := Some(committed));
      events, now := events + [Publish], AfterPublish(now, m);
    } else {
      Continues(dir, st, m, events, now, SnapshotFails, now.(phase := Idle));
      events, now := events + [SnapshotFails], now.(phase := Idle);
    }
  }

  // The second attempt: ok when the old checkpoint is gone and the rename works this time.
  method RemoveCurrent(dir: Directory, n: nat, works: nat -> bool,
                       ghost st: State, ghost m: Mem, ghost before: seq<Event>, ghost from: State)
    returns (ok: bool, ghost events: seq<Event>, ghost now: State)
    requires UnderWay(dir, st, m, before, from) && from.phase == Snapshotting(n, false) && n == |from.disk.sources|
    modifies dir
    ensures UnderWay(dir, st, m, events, now) && (now.phase.Unpublished? || now.phase == Snapshotting(n, false))
    ensures n == |now.disk.sources|
  {
    if !works(2 * n + 2) {
      return false, before, from;
    }
    now := from.(disk := from.disk.(current := None), phase := Unpublished);
    RunMore(st, before, from, Unpublish, now);
    dir.disk := dir.disk.(current := None);
    events := before + [Unpublish];
    ok := works(2 * n + 3);
  }

  method TakeSnapshot(dir: Directory, shards: seq<Shard>, committed: nat, works: nat -> bool, ghost st: State,
                      ghost m: Mem)
    returns (ok: bool, ghost events: seq<Event>, ghost now: State)
    requires st.mem == Some(m) && st.phase.Idle? && NeedsSnapshot(m) && m.committed == committed
    requires dir.disk == st.disk && |shards| == |st.disk.sources| == |m.tables|
    requires forall i :: 0 <= i < |shards| ==> shards[i].data == m.tables[i]
    modifies dir
    ensures Run(st, events) == Some(now) && dir.disk == now.disk && now.phase.Idle?
    ensures now.disk.sources == st.disk.sources && now.disk.fusion == st.disk.fusion
    ensures now.mem == Some(if ok then m.(checkpoint := committed, hasSnapshot := true) else m)
    ensures ok ==> now.disk.current == Some(committed)
    ensures (forall i :: works(i)) ==> ok
  {
    ok, events, now := WriteFiles(dir, shards, committed, works, st, m);
    if ok {
      ok, events, now := WriteCheckpoint(dir, |shards|, committed, works, st, m, events, now);
    }
  }
}
