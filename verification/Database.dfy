/** db/database.go: shards in memory, two logs on disk, one fused backup.

    A Database carries the state of the commit protocol as a ghost, every method
    says which run of protocol steps it performed, and Contents is the plain map
    that the committed operations describe. */
module Databases {
  import opened Words
  import opened Grids
  import opened Tables
  import opened Logs
  import opened Disks
  import opened Protocol
  import opened Operations
  import opened KVLayouts
  import KV = KVHashTables
  import opened Shards
  import opened Publishing
  import opened Space
  import opened Storage
  import opened Growth
  import opened Savings
  import opened Rebuilding
  import Opening

  datatype DBError =
    | TooFewShards | ShardUnavailable | FailureActive | ShardOutOfRange | NotFailed
    | WriteFailed | NoDirectory | LoadFailed(error: Opening.LoadError)

  datatype Reply<+T> = Done(value: T) | Refused(error: DBError)

  class Database {
    const shards: seq<Shard>
    const dir: Directory?
    var next: nat
    var committed: nat
    var checkpoint: nat
    var hasSnapshot: bool
    const fusion: KV.FusedKVHashTable
    ghost var state: State

    constructor (dir: Directory?, shards: seq<Shard>, fusion: KV.FusedKVHashTable, m: Mem, ghost st: State)
      ensures this.dir == dir && this.shards == shards && this.fusion == fusion && state == st && FieldsMatch(m)
    {
      this.dir := dir;
      this.shards := shards;
      this.fusion := fusion;
      this.next, this.committed := m.next, m.committed;
      this.checkpoint, this.hasSnapshot := m.checkpoint, m.hasSnapshot;
      this.state := st;
    }

    // A shard that is up holds its table; one that is down holds nothing.
    ghost predicate ShardsMatch(tables: seq<Table>, failed: Option<nat>)
      reads shards
    {
      && |shards| == |tables|
      && forall i :: 0 <= i < |shards| ==>
           && shards[i].id == i
           && (shards[i].failed <==> failed == Some(i))
           && shards[i].data == if shards[i].failed then map[] else tables[i]
    }

    ghost predicate FieldsMatch(m: Mem)
      reads `next, `committed, `checkpoint, `hasSnapshot
    {
      m.next == next && m.committed == committed && m.checkpoint == checkpoint && m.hasSnapshot == hasSnapshot
    }

    // The fused backup fuses all tables, a lost one too.
    ghost predicate FusionMatches(tables: seq<Table>)
      reads fusion, fusion.buckets, fusion.nodes
    {
      && fusion.Valid() && fusion.sourceCount == |tables| && |fusion.buckets| == BUCKETS
      && Fuses(fusion.layout, tables)
    }

    /** Memory is as m describes it. */
    ghost predicate Holds(m: Mem)
      reads this, shards, fusion, fusion.buckets, fusion.nodes
    {
      ShardsMatch(m.tables, m.failed) && FieldsMatch(m) && FusionMatches(m.tables)
    }

    ghost predicate Valid()
      reads this, shards, dir, fusion, fusion.buckets, fusion.nodes
    {
      && Reachable(state) && state.phase.Idle? && state.mem.Some?
      && |state.disk.sources| == |shards| >= 2
      && Holds(state.mem.value)
      && (dir != null ==> dir.disk == state.disk)
    }

    /** The fused backup and the tables it fuses. */
    ghost function Fused(): (x: Backup)
      requires Valid()
      reads this, shards, dir, fusion, fusion.buckets, fusion.nodes
      ensures Sound(x)
    {
      Backup(fusion.layout, state.mem.value.tables)
    }

    // The nodes of the fused backup are old ones or new ones.
    twostate predicate NodesGrown()
      reads fusion
    {
      fusion.NodesGrown()
    }

    // The shard of the key is up.
    ghost predicate Available(key: u64)
      requires |shards| > 0
      reads shards
    {
      !shards[Bucket(key, |shards|)].failed
    }

    twostate lemma FusionKept(tables: seq<Table>)
      requires old(FusionMatches(tables))
      requires unchanged(fusion) && unchanged(fusion.buckets) && unchanged(old(fusion.nodes))
      ensures FusionMatches(tables)
    {
    }

    // ----- writing

    // The fault that counts: without a directory there is nothing to fail.
    function Effective(fault: Fault): Fault {
      if dir == null then Fine else fault
    }

    /** Source log first, fusion log second. */
    method CommitWAL(record: WALRecord, fault: Fault) returns (ok: bool)
      requires dir != null ==> record.shard < |dir.disk.sources|
      modifies dir
      ensures ok <==> Effective(fault).Fine?
      ensures dir != null ==> dir.disk == LogsAfter(old(dir.disk), record, fault)
    {
      if dir == null {
        return true;
      }
      if fault.SourceAppendFails? {
        return false;
      }
      var d := dir.disk;
      d := d.(sources := d.sources[record.shard := d.sources[record.shard] + [record]]);
      dir.disk := d;
      if fault.FusionAppendFails? {
        return false;
      }
      dir.disk := d.(fusion := d.fusion + [record]);
      ok := true;
    }

    // The record took the next number, and the logs have gained it as far as the fault let them.
    twostate predicate Entered(r: WALRecord, fault: Fault)
      reads `next, dir
    {
      && next == r.sequence + 1
      && (dir != null ==>
            var was := old(dir.disk);
            && r.shard < |was.sources|
            && dir.disk.sources == (if fault.SourceAppendFails? then was.sources
                                    else was.sources[r.shard := was.sources[r.shard] + [r]])
            && dir.disk.fusion == was.fusion + (if fault.Fine? then [r] else [])
            && dir.disk.snapshots == was.snapshots && dir.disk.current == was.current)
    }

    // And when both have it, it is the last committed one.
    twostate predicate Recorded(r: WALRecord, fault: Fault)
      reads `next, `committed, dir
    {
      Entered(r, fault) && committed == if Effective(fault).Fine? then r.sequence else old(committed)
    }

    // The record is committed; shards and counters are still as m describes them,
    // and the fusion has the given tables.
    ghost predicate Committed(m: Mem, record: WALRecord, fused: seq<Table>)
      reads this, shards, dir, fusion, fusion.buckets, fusion.nodes
    {
      && Reachable(state) && state.phase.Idle? && |state.disk.sources| == |shards| >= 2
      && record.shard < |shards| && record.shard < |m.tables|
      && state.mem == Some(MemAfter(m, record, Fine))
      && ShardsMatch(m.tables, m.failed) && FieldsMatch(m.(next := next)) && next == m.next + 1
      && FusionMatches(fused)
      && (dir != null ==> dir.disk == state.disk)
    }

    // The logging half of a mutation: takes the next sequence number and writes both logs.
    method Log(op: Op, key: u64, value: u64, fault: Fault) returns (record: WALRecord, ok: bool)
      requires Valid() && Protocol.Accepts(state.mem.value, |shards|, op, key)
      modifies `next, `state, dir
      ensures record == RecordOf(old(state).mem.value, |shards|, op, key, value)
      ensures if ok then Committed(old(state).mem.value, record, old(state).mem.value.tables)
              else Valid() && state.mem.value.tables == old(state).mem.value.tables
      ensures Run(old(state), MutationEvents(op, key, value, Effective(fault))) == Some(state)
      ensures ok <==> Effective(fault).Fine?
      ensures Entered(record, fault) && committed == old(committed)
      ensures Contents(state) == if ok then Apply(Contents(old(state)), record) else Contents(old(state))
    {
      MutationEnds(state, state.mem.value, op, key, value, Effective(fault));
      record := WALRecord(op, next, Bucket(key, |shards|), key, if op.Put? then value else 0);
      next := next + 1;
      ok := CommitWAL(record, fault);
      state := Operations.Outcome(state, state.mem.value, record, Effective(fault));
      FusionKept(old(state).mem.value.tables);
      ghost var m := old(state).mem.value;
      assert state.mem == Some(MemAfter(m, record, Effective(fault)));
      assert ShardsMatch(m.tables, m.failed) && FieldsMatch(m.(next := next));
      assert FusionMatches(m.tables);
    }

    // The fusion half of a Put.
    method FusePut(s: nat, index: nat, key: u64, known: bool, oldValue: u64, value: u64,
                   ghost tables: seq<Table>)
      requires FusionMatches(tables) && s < |tables|
      requires IsRank(Listing(InBucket(tables[s], Bucket(key, BUCKETS), BUCKETS)), key, index)
      requires known <==> key in tables[s]
      requires known ==> oldValue == tables[s][key]
      requires s == Bucket(key, |tables|)
      modifies fusion, fusion.buckets, fusion.nodes
      ensures FusionMatches(tables[s := With(tables[s], key, value)])
      ensures fusion.layout == AfterPut(Backup(old(fusion.layout), tables), KVRecord(key, value)).layout
      ensures NodesGrown()
    {
      ghost var l := fusion.layout;
      PutFuses(l, tables, s, index, key, value);
      RankIsOwn(Backup(l, tables), KVRecord(key, value), index);
      var r;
      if known {
        r := fusion.Replace(s, index, key, oldValue, value);
      } else {
        r := fusion.Insert(s, index, key, value);
      }
      assert r.Ok?;
      assert fusion.layout == KVLayouts.Put(l, tables, s, index, key, value);
    }

    // The fusion half of a Delete.
    method FuseDelete(s: nat, index: nat, key: u64, value: u64, ghost tables: seq<Table>)
      requires FusionMatches(tables) && s < |tables|
      requires IsRank(Listing(InBucket(tables[s], Bucket(key, BUCKETS), BUCKETS)), key, index)
      requires key in tables[s] && value == tables[s][key] && s == Bucket(key, |tables|)
      modifies fusion, fusion.buckets, fusion.nodes
      ensures FusionMatches(tables[s := WithoutKey(tables[s], key)])
      ensures fusion.layout == AfterDelete(Backup(old(fusion.layout), tables), key).layout
      ensures NodesGrown()
    {
      ghost var l := fusion.layout;
      DeleteFuses(l, tables, s, index, key);
      RankIsOwn(Backup(l, tables), KVRecord(key, value), index);
      var r := fusion.Delete(s, index, key, value);
      assert r.Ok?;
      assert fusion.layout == DeletedAs(l, |tables|, s, index, KVRecord(key, value));
    }

    // The shard half of a mutation, after the fusion.
    method Store(record: WALRecord, ghost m: Mem)
      requires record.shard < |m.tables|
      requires Committed(m, record, m.tables[record.shard := Apply(m.tables[record.shard], record)])
      requires record.shard < |shards| && !shards[record.shard].failed
      modifies shards[record.shard], `committed
      ensures Valid() && committed == record.sequence
      ensures state == old(state)
    {
      var shard := shards[record.shard];
      shard.data := Apply(shard.data, record);
      committed := record.sequence;
      FusionKept(m.tables[record.shard := Apply(m.tables[record.shard], record)]);
    }

    // Only the fusion has changed, from the tables of op.0 to those of op.2.
    twostate lemma CommittedKept(op: (Mem, WALRecord, seq<Table>))
      requires old(Committed(op.0, op.1, op.0.tables)) && FusionMatches(op.2)
      requires unchanged(this)
      requires unchanged(shards)
      requires dir != null ==> dir.disk == old(dir.disk)
      ensures Committed(op.0, op.1, op.2)
    {
    }

    method ApplyPut(record: WALRecord, index: nat, known: bool, oldValue: u64, ghost m: Mem)
      requires Committed(m, record, m.tables) && record.op.Put? && !shards[record.shard].failed
      requires var own := InBucket(m.tables[record.shard], Bucket(record.key, BUCKETS), BUCKETS);
               IsRank(Listing(own), record.key, index)
      requires known <==> record.key in m.tables[record.shard]
      requires known ==> oldValue == m.tables[record.shard][record.key]
      requires record.shard == Bucket(record.key, |m.tables|)
      modifies shards[record.shard], fusion, fusion.buckets, fusion.nodes, `committed
      ensures Valid() && NodesGrown() && committed == record.sequence
      ensures Fused() == AfterPut(Backup(old(fusion.layout), m.tables), KVRecord(record.key, record.value))
      ensures state == old(state)
    {
      FusePut(record.shard, index, record.key, known, oldValue, record.value, m.tables);
      CommittedKept((m, record, m.tables[record.shard := With(m.tables[record.shard], record.key, record.value)]));
      Store(record, m);
      assert Apply(m.tables[record.shard], record) == With(m.tables[record.shard], record.key, record.value);
    }

    method ApplyDelete(record: WALRecord, index: nat, oldValue: u64, ghost m: Mem)
      requires Committed(m, record, m.tables) && record.op.Delete? && !shards[record.shard].failed
      requires var own := InBucket(m.tables[record.shard], Bucket(record.key, BUCKETS), BUCKETS);
               IsRank(Listing(own), record.key, index)
      requires record.key in m.tables[record.shard] && oldValue == m.tables[record.shard][record.key]
      requires record.shard == Bucket(record.key, |m.tables|)
      modifies shards[record.shard], fusion, fusion.buckets, fusion.nodes, `committed
      ensures Valid() && NodesGrown() && committed == record.sequence
      ensures Fused() == AfterDelete(Backup(old(fusion.layout), m.tables), record.key)
      ensures state == old(state)
    {
      FuseDelete(record.shard, index, record.key, oldValue, m.tables);
      CommittedKept((m, record, m.tables[record.shard := WithoutKey(m.tables[record.shard], record.key)]));
      Store(record, m);
      assert Apply(m.tables[record.shard], record) == WithoutKey(m.tables[record.shard], record.key);
    }

    // What the rest of a mutation needs to know about its key.
    method Locate(shard: Shard, key: u64) returns (known: bool, oldValue: u64, index: nat)
      requires Valid() && shard == shards[Bucket(key, |shards|)] && !shard.failed
      ensures var s := Bucket(key, |shards|);
              var tables := state.mem.value.tables;
              && shard.id == s < |tables|
              && (known <==> key in tables[s]) && (known ==> oldValue == tables[s][key])
              && IsRank(Listing(InBucket(tables[s], Bucket(key, BUCKETS), BUCKETS)), key, index)
    {
      known := key in shard.data;
      oldValue := if known then shard.data[key] else 0;
      index := BucketIndex(shard.data, key, |fusion.buckets|);
    }

    /** On a shard that is down nothing happens.  Otherwise the protocol runs as
        far as the fault lets it, and only a committed Put is visible. */
    method Put(key: u64, value: u64, fault: Fault) returns (r: Reply<()>, ghost events: seq<Event>)
      requires Valid()
      modifies this, shards, dir, fusion, fusion.buckets, fusion.nodes
      ensures Valid() && NodesGrown()
      ensures Run(old(state), events) == Some(state)
      ensures |shards| > 0
      ensures !old(Available(key)) ==> r == Refused(ShardUnavailable) && events == []
      ensures old(Available(key)) ==> events == MutationEvents(Op.Put, key, value, Effective(fault))
      ensures old(Available(key)) ==> r == if Effective(fault).Fine? then Done(()) else Refused(WriteFailed)
      ensures Contents(state) == if r.Done? then With(Contents(old(state)), key, value) else Contents(old(state))
      ensures Fused() == if r.Done? then AfterPut(old(Fused()), KVRecord(key, value)) else old(Fused())
      ensures old(Available(key)) ==> Recorded(WALRecord(Op.Put, old(next), key % |shards|, key, value), fault)
    {
      var shard := shards[Bucket(key, |shards|)];
      if shard.failed {
        return Refused(ShardUnavailable), [];
      }
      r, events := PutUp(shard, key, value, fault);
    }

    // A Put to a shard that is up.
    method PutUp(shard: Shard, key: u64, value: u64, fault: Fault) returns (r: Reply<()>, ghost events: seq<Event>)
      requires Valid() && shard == shards[Bucket(key, |shards|)] && !shard.failed
      modifies this, shards, dir, fusion, fusion.buckets, fusion.nodes
      ensures Valid() && NodesGrown()
      ensures events == MutationEvents(Op.Put, key, value, Effective(fault)) && Run(old(state), events) == Some(state)
      ensures r == if Effective(fault).Fine? then Done(()) else Refused(WriteFailed)
      ensures Contents(state) == if r.Done? then With(Contents(old(state)), key, value) else Contents(old(state))
      ensures Fused() == if r.Done? then AfterPut(old(Fused()), KVRecord(key, value)) else old(Fused())
      ensures Recorded(WALRecord(Op.Put, old(next), key % |shards|, key, value), fault)
    {
      ghost var m, before := state.mem.value, Fused();
      var known, oldValue, index := Locate(shard, key);
      events := MutationEvents(Op.Put, key, value, Effective(fault));
      var record, ok := Log(Op.Put, key, value, fault);
      assert fusion.layout == before.layout && m.tables == before.tables && fusion.nodes == old(fusion.nodes);
      if !ok {
        return Refused(WriteFailed), events;
      }
      ApplyPut(record, index, known, oldValue, m);
      r := Done(());
    }

    /** Like Put; deleting a key that is not there succeeds without touching the logs. */
    method Delete(key: u64, fault: Fault) returns (r: Reply<()>, ghost events: seq<Event>)
      requires Valid()
      modifies this, shards, dir, fusion, fusion.buckets, fusion.nodes
      ensures Valid() && NodesGrown()
      ensures Run(old(state), events) == Some(state)
      ensures |shards| > 0
      ensures !old(Available(key)) ==> r == Refused(ShardUnavailable) && events == []
      ensures old(Available(key)) && key !in Contents(old(state)) ==> r == Done(()) && events == []
      ensures old(Available(key)) && key in Contents(old(state)) ==>
                && events == MutationEvents(Op.Delete, key, 0, Effective(fault))
                && r == if Effective(fault).Fine? then Done(()) else Refused(WriteFailed)
      ensures Contents(state) == if r.Done? then WithoutKey(Contents(old(state)), key) else Contents(old(state))
      ensures Fused() == if r.Done? then AfterDelete(old(Fused()), key) else old(Fused())
      ensures old(Available(key)) && key in Contents(old(state)) ==>
                Recorded(WALRecord(Op.Delete, old(next), key % |shards|, key, 0), fault)
      ensures events == [] ==> unchanged(this) && (dir != null ==> dir.disk == old(dir.disk))
    {
      var shard := shards[Bucket(key, |shards|)];
      events := [];
      if shard.failed {
        return Refused(ShardUnavailable), events;
      }
      TablesArePlainMap(state, state.mem.value, key);
      var known, oldValue, index := Locate(shard, key);
      if !known {
        return Done(()), events;
      }
      r, events := DeleteKnown(shard, key, oldValue, index, fault);
    }

    // A Delete of a key that is there, on a shard that is up.
    method DeleteKnown(shard: Shard, key: u64, oldValue: u64, index: nat, fault: Fault)
      returns (r: Reply<()>, ghost events: seq<Event>)
      requires Valid() && shard == shards[Bucket(key, |shards|)] && !shard.failed
      requires var s := Bucket(key, |shards|);
               var tables := state.mem.value.tables;
               && s < |tables| && key in tables[s] && oldValue == tables[s][key]
               && IsRank(Listing(InBucket(tables[s], Bucket(key, BUCKETS), BUCKETS)), key, index)
      modifies this, shards, dir, fusion, fusion.buckets, fusion.nodes
      ensures Valid() && NodesGrown()
      ensures events == MutationEvents(Op.Delete, key, 0, Effective(fault)) && Run(old(state), events) == Some(state)
      ensures r == if Effective(fault).Fine? then Done(()) else Refused(WriteFailed)
      ensures Contents(state) == if r.Done? then WithoutKey(Contents(old(state)), key) else Contents(old(state))
      ensures Fused() == if r.Done? then AfterDelete(old(Fused()), key) else old(Fused())
      ensures Recorded(WALRecord(Op.Delete, old(next), key % |shards|, key, 0), fault)
    {
      ghost var m, before := state.mem.value, Fused();
      events := MutationEvents(Op.Delete, key, 0, Effective(fault));
      var record, ok := Log(Op.Delete, key, 0, fault);
      assert fusion.layout == before.layout && m.tables == before.tables && fusion.nodes == old(fusion.nodes);
      if !ok {
        return Refused(WriteFailed), events;
      }
      ApplyDelete(record, index, oldValue, m);
      r := Done(());
    }

    // ----- reading

    method Get(key: u64) returns (r: Reply<Option<u64>>)
      requires Valid()
      ensures r.Done? <==> |shards| > 0 && Available(key)
      ensures r.Refused? ==> r.error == ShardUnavailable
      ensures r.Done? ==> r.value == if key in Contents(state) then Some(Contents(state)[key]) else None
    {
      TablesArePlainMap(state, state.mem.value, key);
      var shard := shards[Bucket(key, |shards|)];
      if shard.failed {
        return Refused(ShardUnavailable);
      }
      r := Done(if key in shard.data then Some(shard.data[key]) else None);
    }

    /** All records in key order, or an error while a shard is down. */
    method Scan() returns (r: Reply<seq<KVRecord>>)
      requires Valid()
      ensures r.Done? <==> forall i :: 0 <= i < |shards| ==> !shards[i].failed
      ensures r.Refused? ==> r.error == ShardUnavailable
      ensures r.Done? ==> r.value == Listing(Contents(state))
    {
      TablesSplit();
      assert forall i :: 0 <= i < |shards| ==> state.mem.value.tables[i] == InBucket(Contents(state), i, |shards|);
      var records, ok := Gather(shards, Contents(state));
      if !ok {
        return Refused(ShardUnavailable);
      }
      records := SortBag(records, Contents(state));
      r := Done(records);
    }

    lemma TablesSplit()
      requires Valid()
      ensures state.mem.value.tables == Split(Contents(state), |shards|)
    {
      TablesAreSplit(state, state.mem.value);
    }

    // ----- the room the fused backup takes

    /** The backup has a record for each key. */
    lemma BackupCounts()
      requires Valid()
      ensures AllRecords(fusion.layout, |shards|) == |Contents(state).Keys|
    {
      TablesSplit();
      RecordsAreKeys(fusion.layout, Contents(state), |shards|);
    }

    /** Whatever it went through, the backup's size lies between two counts that the contents determine. */
    lemma BackupBetween()
      requires Valid()
      ensures FewestBytes(Contents(state), |shards|) <= Bytes(fusion.layout, |shards|)
           <= MostBytes(Contents(state), |shards|)
    {
      TablesSplit();
      BytesBetween(fusion.layout, Contents(state), |shards|);
    }

    /** With 2, 4, 8 or 16 shards it has a node for each key as well, and takes more
        bytes than a copy of the records: 16 for the record and a bit field each time. */
    lemma NeverSmaller()
      requires Valid() && BUCKETS % |shards| == 0
      ensures Nodes(fusion.layout) == |Contents(state).Keys|
      ensures Bytes(fusion.layout, |shards|) >= 17 * |Contents(state).Keys|
    {
      BackupCounts();
      TablesSplit();
      NothingShared(fusion.layout, state.mem.value.tables);
    }

    /** StorageMetrics: the keys, the nodes of the fused backup, and the bytes of a full copy and of the backup. */
    method StorageMetrics() returns (records: int, nodes: nat, replica: int, backup: int)
      requires Valid()
      ensures records == |Contents(state).Keys| && nodes == Nodes(fusion.layout)
      ensures replica == ReplicaBytes(fusion.layout, |shards|) == 16 * records
      ensures var width := BitFieldBytes(|shards|);
              |shards| <= 8 * width < |shards| + 8 && backup == Bytes(fusion.layout, |shards|) == nodes * (16 + width)
    {
      BackupCounts();
      assert fusion.sourceCount == |shards|;
      records := fusion.SourceRecordCount();
      nodes := fusion.NodeCount();
      replica := 16 * records;
      backup := fusion.LogicalBytes();
    }

    // ----- losing and recovering a shard

    // A step that concerns no file but the failure mark.
    ghost function Marked(failed: Option<nat>): State
      requires state.mem.Some?
      reads `state
    {
      state.(mem := Some(state.mem.value.(failed := failed)))
    }

    /** Drops a shard's memory; at most one shard can be down. */
    method CrashShard(id: int) returns (r: Reply<()>, ghost events: seq<Event>)
      requires Valid()
      modifies `state, shards
      ensures Valid() && Run(old(state), events) == Some(state)
      ensures Contents(state) == Contents(old(state))
      ensures r.Done? <==> 0 <= id < |shards| && old(state).mem.value.failed.None?
      ensures r.Refused? ==>
                r.error == if !(0 <= id < |shards|) then ShardOutOfRange
                           else if old(state).mem.value.failed == Some(id) then ShardUnavailable else FailureActive
      ensures r.Done? ==> shards[id].failed && shards[id].data == map[] && events == [Event.CrashShard(id)]
      ensures r.Refused? ==> state == old(state)
    {
      events := [];
      if id < 0 || id >= |shards| {
        return Refused(ShardOutOfRange), events;
      }
      for i := 0 to |shards|
        invariant forall j :: 0 <= j < i ==> !shards[j].failed || j == id
      {
        if shards[i].failed && shards[i].id != id {
          return Refused(FailureActive), events;
        }
      }
      if shards[id].failed {
        return Refused(ShardUnavailable), events;
      }
      ghost var after := Marked(Some(id));
      assert state.mem.value.failed.None? by {
        ReachableSound(state);
      }
      events := [Event.CrashShard(id)];
      RunOne(state, Event.CrashShard(id));
      ReachableRun(state, events, after);
      shards[id].data := map[];
      shards[id].failed := true;
      state := after;
      FusionKept(state.mem.value.tables);
      r := Done(());
    }

    /** Rebuilds the lost shard from the fusion and the survivors, and never fails to. */
    method RecoverShard(id: int) returns (r: Reply<()>, ghost events: seq<Event>)
      requires Valid()
      modifies `state, shards
      ensures Valid() && Run(old(state), events) == Some(state)
      ensures Contents(state) == Contents(old(state))
      ensures r.Done? <==> 0 <= id < |shards| && old(shards[id].failed)
      ensures r.Refused? ==> r.error == if 0 <= id < |shards| then NotFailed else ShardOutOfRange
      ensures r.Done? ==> events == [Event.RecoverShard(id)] && forall i :: 0 <= i < |shards| ==> !shards[i].failed
      ensures r.Done? ==> forall key: u64 ::
                (key in shards[id].data <==> key in Contents(state) && Bucket(key, |shards|) == id)
                && (key in shards[id].data ==> shards[id].data[key] == Contents(state)[key])
      ensures r.Refused? ==> state == old(state)
    {
      events := [];
      if id < 0 || id >= |shards| {
        return Refused(ShardOutOfRange), events;
      }
      if !shards[id].failed {
        return Refused(NotFailed), events;
      }
      var data := RebuildShard(id);
      ghost var after := Marked(None);
      events := [Event.RecoverShard(id)];
      RunOne(state, Event.RecoverShard(id));
      ReachableRun(state, events, after);
      shards[id].data := data;
      shards[id].failed := false;
      state := after;
      FusionKept(state.mem.value.tables);
      forall key: u64
        ensures key in data <==> key in Contents(state) && Bucket(key, |shards|) == id
        ensures key in data ==> data[key] == Contents(state)[key]
      {
        TablesArePlainMap(state, state.mem.value, key);
      }
      r := Done(());
    }

    // ----- snapshots

    /** Writes nothing while a shard is down or when the last snapshot is current.
        After success the checkpoint on disk is the last committed operation. */
    method Snapshot(works: nat -> bool) returns (r: Reply<()>, ghost events: seq<Event>)
      requires Valid()
      modifies `state, `checkpoint, `hasSnapshot, dir
      ensures Valid() && Run(old(state), events) == Some(state)
      ensures Contents(state) == Contents(old(state)) && state.mem.value.tables == old(state).mem.value.tables
      ensures dir == null ==> r == Refused(NoDirectory) && state == old(state)
      ensures dir != null && old(state).mem.value.failed.Some? ==> r == Refused(ShardUnavailable) && state == old(state)
      ensures r.Refused? && dir != null && old(state).mem.value.failed.None? ==> r.error == WriteFailed
      ensures r.Done? ==> dir != null && dir.disk.current == Some(committed)
      ensures r.Done? ==> forall s :: 0 <= s < |shards| ==>
                && (committed, s) in dir.disk.snapshots
                && dir.disk.snapshots[(committed, s)] ==
                     SnapshotFile(committed, Listing(InBucket(Contents(state), s, |shards|)))
      ensures dir != null && old(state).mem.value.failed.None? && (forall i :: works(i)) ==> r.Done?
    {
      events := [];
      if dir == null {
        return Refused(NoDirectory), events;
      }
      for i := 0 to |shards|
        invariant forall j :: 0 <= j < i ==> !shards[j].failed
      {
        if shards[i].failed {
          return Refused(ShardUnavailable), events;
        }
      }
      ReachableSound(state);
      if hasSnapshot && checkpoint == committed {
        PublishedFiles(state, state.mem.value);
        return Done(()), events;
      }
      var ok;
      ghost var m, now := state.mem.value, state;
      ok, events, now := TakeSnapshot(dir, shards, committed, works, state, m);
      ReachableRun(state, events, now);
      if ok {
        checkpoint := committed;
        hasSnapshot := true;
      }
      state := now;
      FusionKept(m.tables);
      if !ok {
        return Refused(WriteFailed), events;
      }
      PublishedFiles(state, state.mem.value);
      r := Done(());
    }

    // The survivors' records and the fusion give back the lost table.
    method RebuildShard(id: nat) returns (data: Table)
      requires Valid() && id < |shards| && shards[id].failed
      ensures id < |state.mem.value.tables| && data == state.mem.value.tables[id]
    {
      ghost var tables := state.mem.value.tables;
      var survivors := SurvivorsOf(shards, id, tables);
      AcceptsSurvivors(fusion.layout, tables, id, survivors);
      var recovered := fusion.Recover(id, survivors, tables);
      assert recovered.Ok? && recovered.value == Listing(tables[id]);
      forall key | key in tables[id] ensures Bucket(key, |shards|) == id {
        TablesArePlainMap(state, state.mem.value, key);
      }
      data := LoadRecovered(recovered.value, |shards|, id, tables[id]);
    }
  }

  // ----- opening

  /** Between operations the tables are the parts of the plain map. */
  lemma TablesAreSplit(st: State, m: Mem)
    requires Reachable(st) && |st.disk.sources| >= 2 && st.mem == Some(m) && st.phase.Idle?
    ensures m.tables == Split(Contents(st), |st.disk.sources|)
  {
    var n := |st.disk.sources|;
    TablesArePlainMap(st, m, 0);
    forall s | 0 <= s < n ensures m.tables[s] == InBucket(Contents(st), s, n) {
      forall key: u64
        ensures key in m.tables[s] <==> key in InBucket(Contents(st), s, n)
        ensures key in m.tables[s] ==> m.tables[s][key] == Contents(st)[key]
      {
        TablesArePlainMap(st, m, key);
      }
    }
  }

  /** What the current checkpoint's files hold. */
  lemma PublishedFiles(st: State, m: Mem)
    requires Reachable(st) && |st.disk.sources| >= 2 && st.mem == Some(m) && st.phase.Idle?
    requires st.disk.current == Some(m.committed)
    ensures var n := |st.disk.sources|;
            forall s :: 0 <= s < n ==>
              && (m.committed, s) in st.disk.snapshots
              && st.disk.snapshots[(m.committed, s)] ==
                   SnapshotFile(m.committed, Listing(InBucket(Contents(st), s, n)))
  {
    ReachableSound(st);
    TablesAreSplit(st, m);
    KeepsWholeLog(st.disk, m);
    var n := |st.disk.sources|;
    forall s | 0 <= s < n
      ensures (m.committed, s) in st.disk.snapshots
      ensures st.disk.snapshots[(m.committed, s)] ==
                SnapshotFile(m.committed, Listing(InBucket(Contents(st), s, n)))
    {
      assert SnapshotExact(st.disk, m.committed, s);
      assert m.tables[s] == ShardTable(Applied(st), s) == ShardTable(st.disk.fusion, s);
      assert m.tables[s] == Split(Contents(st), n)[s] == InBucket(Contents(st), s, n);
    }
  }

  // What a run left behind and no one has opened since.
  ghost predicate Left(st: State) {
    Reachable(st) && st.mem.None? && |st.disk.sources| >= 2
  }

  lemma Reopened(st: State, now: State)
    requires Left(st) && now == st.(mem := Some(Opened(st.disk)))
    ensures Openable(st.disk)
    ensures Reachable(now) && now.phase.Idle? && Run(st, [Reopen]) == Some(now) && Contents(now) == Contents(st)
    ensures Opened(st.disk).tables == Split(Contents(st), |st.disk.sources|)
  {
    ReopenSucceeds(st);
    TablesAreSplit(now, Opened(st.disk));
  }

  /** New: an empty database in memory. */
  method New(shardCount: int) returns (r: Reply<Database>)
    ensures r.Done? <==> shardCount >= 2
    ensures r.Refused? ==> r.error == TooFewShards
    ensures r.Done? ==> r.value.next == 1 && r.value.committed == 0 && |r.value.fusion.buckets| == 16
    ensures r.Done? ==> fresh(r.value) && r.value.Valid() && r.value.dir == null
    ensures r.Done? ==> |r.value.shards| == shardCount && Contents(r.value.state) == map[]
    ensures r.Done? ==> fresh(r.value.shards) && fresh(r.value.fusion)
    ensures r.Done? ==> fresh(r.value.fusion.buckets) && fresh(r.value.fusion.nodes)
  {
    if shardCount < 2 {
      return Refused(TooFewShards);
    }
    var made := KV.NewFusedKVHashTable(shardCount, BUCKETS);
    var shards := MakeShards(seq(shardCount, _ => map[]));
    EmptyFuses(BUCKETS, shardCount);
    NewIsReachable(shardCount);
    var m := NewMem(shardCount);
    var db := new Database(null, shards, made.value, m, Start(shardCount).(mem := Some(m)));
    r := Done(db);
  }

  /** Open fails exactly when the directory does not pass its checks, and otherwise
      holds what they let through.  On whatever earlier runs left, st says which, it
      never fails, and the contents are those of the fusion log. */
  method Open(dir: Directory, ghost st: State) returns (r: Reply<Database>)
    ensures dir.disk == old(dir.disk)
    ensures r.Done? <==> Openable(dir.disk)
    ensures r.Refused? ==> r.error.LoadFailed? && Opening.Flawed(dir.disk, r.error.error)
    ensures r.Done? ==> forall f :: f in dir.disk.fusion && f.sequence > Checkpoint(dir.disk) ==>
              f.shard < |dir.disk.sources| && f in Tail(dir.disk, f.shard)
    ensures r.Done? ==> forall s, f :: 0 <= s < |dir.disk.sources| && f in Tail(dir.disk, s) ==>
              f in dir.disk.fusion && f.shard == s && f.sequence > Checkpoint(dir.disk)
    ensures r.Done? ==> forall s, key :: 0 <= s < |r.value.shards| && key in r.value.shards[s].data ==>
              key % |r.value.shards| == s
    ensures r.Done? ==> |r.value.fusion.buckets| == 16
    ensures r.Done? ==> fresh(r.value) && r.value.dir == dir && r.value.Holds(Opened(dir.disk))
    ensures r.Done? ==> fresh(r.value.shards) && fresh(r.value.fusion)
    ensures r.Done? ==> fresh(r.value.fusion.buckets) && fresh(r.value.fusion.nodes)
    ensures r.Done? ==> Compact(r.value.fusion.layout, Opened(dir.disk).tables)
    ensures Left(st) && st.disk == dir.disk ==>
              && r.Done? && r.value.Valid() && Run(st, [Reopen]) == Some(r.value.state)
              && Contents(r.value.state) == Contents(st)
              && Bytes(r.value.fusion.layout, |r.value.shards|) == FewestBytes(Contents(st), |r.value.shards|)
  {
    var loaded := Opening.Load(dir.disk);
    ghost var known, now := Left(st) && st.disk == dir.disk, st.(mem := Some(Opened(dir.disk)));
    if known {
      Reopened(st, now);
    }
    if loaded.Failed? {
      return Refused(LoadFailed(loaded.error));
    }
    var shards := MakeShards(loaded.value.tables);
    var fusion := RebuildFusion(loaded.value.tables);
    var db := new Database(dir, shards, fusion, loaded.value, now);
    if known {
      RebuiltSaves(fusion.layout, Contents(st), |shards|);
    }
    assert db.Holds(Opened(dir.disk));
    OpenableSound(dir.disk);
    OpenedRouted(dir.disk);
    r := Done(db);
  }
}
