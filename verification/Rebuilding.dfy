/** The fused backup of given tables, built from nothing (db/database.go rebuildFusion). */
module Rebuilding {
  import opened Tables
  import opened Sets
  import opened KVLayouts
  import opened Storage
  import KV = KVHashTables

  /** rebuildFusion: a fresh table in which no insertion fails and which fuses all the shards,
      with as few nodes as any table that does. */
  method RebuildFusion(tables: seq<Table>) returns (fusion: KV.FusedKVHashTable)
    requires |tables| >= 2
    ensures fresh(fusion) && fresh(fusion.buckets) && fresh(fusion.nodes) && fusion.Valid()
    ensures fusion.sourceCount == |tables| && |fusion.buckets| == BUCKETS && Fuses(fusion.layout, tables)
    ensures Compact(fusion.layout, tables)
  {
    var made := KV.NewFusedKVHashTable(|tables|, BUCKETS);
    fusion := made.value;
    BuildStart(BUCKETS, tables);
    AddAll(fusion, tables);
    BuildDone(fusion.layout, tables);
    AlignedCompact(fusion.layout, tables);
  }

  method AddAll(fusion: KV.FusedKVHashTable, tables: seq<Table>)
    requires fusion.Valid() && fusion.sourceCount == |tables| && |fusion.buckets| == BUCKETS
    requires Building(fusion.layout, tables, 0, []) && AllAligned(fusion.layout, |tables|)
    modifies fusion, fusion.buckets, fusion.nodes
    ensures fusion.Valid() && Building(fusion.layout, tables, |tables|, []) && AllAligned(fusion.layout, |tables|)
    ensures fusion.NodesGrown()
  {
    var s := 0;
    while s < |tables|
      invariant 0 <= s <= |tables|
      invariant fusion.Valid()
      invariant Building(fusion.layout, tables, s, []) && AllAligned(fusion.layout, |tables|)
      invariant fusion.NodesGrown()
    {
      s := AddSource(fusion, s, tables);
    }
  }

  // One shard's records, ordered by bucket and then by key.
  method AddSource(fusion: KV.FusedKVHashTable, s: nat, tables: seq<Table>) returns (next: nat)
    requires fusion.Valid() && fusion.sourceCount == |tables| && |fusion.buckets| == BUCKETS && s < |tables|
    requires Building(fusion.layout, tables, s, []) && AllAligned(fusion.layout, |tables|)
    modifies fusion, fusion.buckets, fusion.nodes
    ensures next == s + 1 && fusion.Valid() && Building(fusion.layout, tables, next, [])
    ensures AllAligned(fusion.layout, |tables|)
    ensures fusion.NodesGrown()
  {
    var records := RecordsFromMap(tables[s]);
    InsertAll(fusion, s, Chain(records, BUCKETS, BUCKETS), tables);
    BuildNext(fusion.layout, tables, s);
    next := s + 1;
  }

  lemma GroupSizes(ordered: seq<KVRecord>, j: nat)
    requires j < |ordered|
    ensures ordered[..j + 1] == ordered[..j] + [ordered[j]]
    ensures forall c: nat :: |Group(ordered[..j + 1], c, BUCKETS)| ==
              |Group(ordered[..j], c, BUCKETS)| + if c == Bucket(ordered[j].key, BUCKETS) then 1 else 0
  {
    assert ordered[..j + 1] == ordered[..j] + [ordered[j]];
    forall c: nat ensures |Group(ordered[..j + 1], c, BUCKETS)| ==
      |Group(ordered[..j], c, BUCKETS)| + if c == Bucket(ordered[j].key, BUCKETS) then 1 else 0
    {
      GroupStep(ordered[..j], ordered[j], c, BUCKETS);
    }
  }

  lemma BuildAligned(l: Layout, tables: seq<Table>, s: nat, done: seq<KVRecord>, r: KVRecord)
    requires Building(l, tables, s, done) && s < |tables| && AllAligned(l, |tables|)
    ensures var k := |Group(done, Bucket(r.key, |l|), |l|)|;
            FitsNew(l, |tables|, s, k, r.key) && AllAligned(Inserted(l, |tables|, s, k, r), |tables|)
  {
    var b := Bucket(r.key, |l|);
    BuiltAt(l, tables, s, done, b, s);
    AlignedStep(l, |tables|, s, |Group(done, b, |l|)|, r);
  }

  // Inserts one source's records, ordered by bucket and key, each at the end of its bucket.
  method InsertAll(fusion: KV.FusedKVHashTable, s: nat, ordered: seq<KVRecord>, ghost tables: seq<Table>)
    requires fusion.Valid() && fusion.sourceCount == |tables| && |fusion.buckets| == BUCKETS && s < |tables|
    requires Building(fusion.layout, tables, s, []) && AllAligned(fusion.layout, |tables|)
    modifies fusion, fusion.buckets, fusion.nodes
    ensures fusion.Valid() && Building(fusion.layout, tables, s, ordered) && AllAligned(fusion.layout, |tables|)
    ensures fusion.NodesGrown()
  {
    var indices: seq<int> := seq(BUCKETS, _ => 0);
    for j := 0 to |ordered|
      invariant fusion.Valid() && Building(fusion.layout, tables, s, ordered[..j])
      invariant AllAligned(fusion.layout, |tables|)
      invariant fusion.NodesGrown()
      invariant |indices| == BUCKETS
      invariant forall b :: 0 <= b < BUCKETS ==> indices[b] == |Group(ordered[..j], b, BUCKETS)|
    {
      var record := ordered[j];
      var b := Bucket(record.key, BUCKETS);
      BuildStep(fusion.layout, tables, s, ordered[..j], record);
      BuildAligned(fusion.layout, tables, s, ordered[..j], record);
      GroupSizes(ordered, j);
      var r := fusion.Insert(s, indices[b], record.key, record.value);
      assert r.Ok?;
      indices := indices[b := indices[b] + 1];
    }
    assert ordered[..|ordered|] == ordered;
  }

  lemma AcceptsSurvivors(l: Layout, tables: seq<Table>, id: nat, survivors: map<int, seq<KVRecord>>)
    requires Fuses(l, tables) && id < |tables| && survivors.Keys == Others(|tables|, id)
    requires forall s :: s in survivors ==> 0 <= s < |tables| && survivors[s] == Listing(tables[s])
    ensures KVLayouts.Accepts(l, |tables|, id, survivors) && Truthful(l, tables, survivors)
  {
    BelowSize(|tables|);
    OthersComplete(|tables|, id, survivors.Keys);
    assert |survivors| == |survivors.Keys| == |tables| - 1;
    forall s | s in survivors ensures SizesFit(l, s, survivors[s]) {
      TruthfulFits(l, tables, s, survivors[s]);
    }
  }
}
