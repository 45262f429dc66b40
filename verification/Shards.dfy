/** One shard in memory, and the loops that read all of them (db/database.go). */
module Shards {
  import opened Words
  import opened Tables
  import opened Sets
  import opened Disks

  class Shard {
    const id: nat
    var data: Table
    var failed: bool

    constructor (id: nat, data: Table)
      ensures this.id == id && this.data == data && !failed
    {
      this.id := id;
      this.data := data;
      this.failed := false;
    }
  }

  method MakeShards(tables: seq<Table>) returns (shards: seq<Shard>)
    ensures |shards| == |tables|
    ensures forall i :: 0 <= i < |shards| ==>
              fresh(shards[i]) && shards[i].id == i && shards[i].data == tables[i] && !shards[i].failed
  {
    shards := [];
    for i := 0 to |tables|
      invariant |shards| == i
      invariant forall j :: 0 <= j < i ==>
                  fresh(shards[j]) && shards[j].id == j && shards[j].data == tables[j] && !shards[j].failed
    {
      var shard := new Shard(i, tables[i]);
      shards := shards + [shard];
    }
  }

  // Every other shard's records, in key order.
  method SurvivorsOf(shards: seq<Shard>, id: nat, ghost tables: seq<Table>) returns (survivors: map<int, seq<KVRecord>>)
    requires |shards| == |tables| && id < |shards|
    requires forall i :: 0 <= i < |shards| && i != id ==> shards[i].data == tables[i]
    ensures survivors.Keys == Others(|shards|, id)
    ensures forall s :: s in survivors ==> 0 <= s < |tables| && survivors[s] == Listing(tables[s])
  {
    survivors := map[];
    for i := 0 to |shards|
      invariant forall s :: s in survivors <==> 0 <= s < i && s != id
      invariant forall s :: s in survivors ==> survivors[s] == Listing(tables[s])
    {
      if i == id {
        continue;
      }
      var records := RecordsFromMap(shards[i].data);
      survivors := survivors[i := records];
    }
    OthersAre(|shards|, id, survivors.Keys);
  }

  // The recovered records as a map; none of them is refused as misrouted.
  method LoadRecovered(records: seq<KVRecord>, n: nat, id: nat, ghost table: Table) returns (data: Table)
    requires n > 0 && records == Listing(table)
    requires forall key :: key in table ==> Bucket(key, n) == id
    ensures data == table
  {
    data := map[];
    for i := 0 to |records|
      invariant data == TableOf(records[..i])
    {
      RoutesHome(records, n, id, table, i);
      assert Bucket(records[i].key, n) == id;
      assert records[..i + 1][..i] == records[..i];
      data := With(data, records[i].key, records[i].value);
    }
    assert records[..|records|] == records;
    ListingLists(table);
    TableOfListing(records, table);
  }

  lemma RoutesHome(records: seq<KVRecord>, n: nat, id: nat, table: Table, i: nat)
    requires n > 0 && records == Listing(table) && i < |records|
    requires forall key :: key in table ==> Bucket(key, n) == id
    ensures Bucket(records[i].key, n) == id
  {
    ListingLists(table);
    assert records[i] in records;
  }

  /** bucketIndex: the rank of the key among the shard's keys of the same bucket. */
  method BucketIndex(data: Table, key: u64, count: nat) returns (index: nat)
    requires count > 0
    ensures IsRank(Listing(InBucket(data, Bucket(key, count), count)), key, index)
  {
    var same := InBucket(data, Bucket(key, count), count);
    var records := RecordsFromMap(same);
    ListingLists(same);
    var keys := seq(|records|, i requires 0 <= i < |records| => records[i].key);
    index := Search(keys, key);
    assert forall i :: 0 <= i < |records| ==> keys[i] == records[i].key;
  }

  // The records of all shards, one shard after another.
  method Gather(shards: seq<Shard>, ghost whole: Table) returns (records: seq<KVRecord>, ok: bool)
    requires |shards| > 0
    requires forall i :: 0 <= i < |shards| && !shards[i].failed ==> shards[i].data == InBucket(whole, i, |shards|)
    ensures ok <==> forall i :: 0 <= i < |shards| ==> !shards[i].failed
    ensures ok ==> IsBag(records, whole)
  {
    records := [];
    FirstBucketsStep(whole, 0, |shards|);
    for i := 0 to |shards|
      invariant forall j :: 0 <= j < i ==> !shards[j].failed
      invariant IsBag(records, FirstBuckets(whole, i, |shards|))
    {
      if shards[i].failed {
        return records, false;
      }
      var own := CopyRecords(shards[i].data);
      FirstBucketsStep(whole, i, |shards|);
      BagUnion(records, FirstBuckets(whole, i, |shards|), own, InBucket(whole, i, |shards|));
      records := records + own;
    }
    FirstBucketsStep(whole, |shards|, |shards|);
    ok := true;
  }
}
