/** structures/kvhashtable.go: a fixed array of fused lists, one for each bucket
    of keys.  The table keeps bit fields and sizes but no source records. */
module KVHashTables {
  import opened Words
  import opened Grids
  import opened Tables
  import opened KVLayouts
  import opened FusedLists
  import opened Results
  import opened Sets
  import Space

  /** NewFusedKVHashTable */
  method NewFusedKVHashTable(sourceCount: int, bucketCount: int) returns (r: Result<FusedKVHashTable>)
    ensures r.Ok? <==> sourceCount >= 2 && bucketCount >= 1
    ensures r.Ok? ==> fresh(r.value) && fresh(r.value.buckets) && fresh(r.value.nodes) && r.value.Valid()
    ensures r.Ok? ==> r.value.sourceCount == sourceCount && |r.value.buckets| == bucketCount
    ensures r.Ok? ==> r.value.layout == seq(bucketCount, _ => [])
  {
    if sourceCount < 2 {
      return Err(TooFewSources);
    }
    if bucketCount < 1 {
      return Err(NoBuckets);
    }
    var f := new FusedKVHashTable(sourceCount, bucketCount);
    r := Ok(f);
  }

  method NewBuckets(sourceCount: nat, bucketCount: nat) returns (buckets: seq<FusedList<KVRecord>>)
    ensures |buckets| == bucketCount
    ensures forall b, c :: 0 <= b < c < |buckets| ==> buckets[b] != buckets[c]
    ensures forall b :: 0 <= b < |buckets| ==>
              && fresh(buckets[b]) && buckets[b].Valid() && buckets[b].grid == [] && buckets[b].nodes == []
              && buckets[b].ops == RECORD_OPS && buckets[b].width == sourceCount
  {
    RecordOpsLawful();
    buckets := [];
    for b := 0 to bucketCount
      invariant |buckets| == b
      invariant forall c, d :: 0 <= c < d < b ==> buckets[c] != buckets[d]
      invariant forall c :: 0 <= c < b ==>
                  && fresh(buckets[c]) && buckets[c].Valid() && buckets[c].grid == [] && buckets[c].nodes == []
                  && buckets[c].ops == RECORD_OPS && buckets[c].width == sourceCount
    {
      var bucket := new FusedList(RECORD_OPS, sourceCount);
      buckets := buckets + [bucket];
    }
  }

  lemma Scale(a: int, b: int, w: nat)
    requires a <= b
    ensures a * w <= b * w
  {
  }

  class FusedKVHashTable {
    const sourceCount: nat
    const buckets: seq<FusedList<KVRecord>>
    var sizes: seq<seq<int>>
    ghost var layout: Layout  // the grids of the buckets
    ghost var nodes: set<Node<KVRecord>>  // the nodes of all buckets, and perhaps discarded ones

    // The nodes in use are old ones or new ones.
    twostate predicate NodesGrown()
      reads this
    {
      forall n :: n in nodes ==> n in old(nodes) || fresh(n)
    }

    ghost function OwnNodes(b: nat): set<Node<KVRecord>>
      requires b < |buckets|
      reads buckets[b]
    {
      set n | n in buckets[b].nodes
    }

    ghost predicate BucketValid(b: nat)
      requires b < |buckets|
      reads buckets[b], OwnNodes(b), `layout
    {
      |layout| == |buckets| && layout[b] == buckets[b].grid &&
      buckets[b].Valid() && buckets[b].ops == RECORD_OPS && buckets[b].width == sourceCount && Tight(buckets[b].grid)
    }

    ghost predicate BucketsValid()
      reads buckets, nodes, `nodes, `layout
    {
      |layout| == |buckets| &&
      forall b :: 0 <= b < |buckets| ==> OwnNodes(b) <= nodes && BucketValid(b)
    }

    // The linked lists alone.
    ghost predicate Linked()
      reads buckets, nodes, `nodes, `layout
    {
      (forall b, c :: 0 <= b < c < |buckets| ==> buckets[b] != buckets[c]) && BucketsValid()
    }

    ghost predicate Valid()
      reads this, buckets, nodes
    {
      && sourceCount >= 2 && |buckets| > 0
      && Linked()
      && Shaped(layout, sourceCount)
      && AllCounts(sizes, layout, sourceCount)
    }

    constructor (sourceCount: nat, bucketCount: nat)
      requires sourceCount >= 2 && bucketCount >= 1
      ensures Valid() && fresh(buckets) && fresh(nodes)
      ensures this.sourceCount == sourceCount && |buckets| == bucketCount
      ensures layout == seq(bucketCount, _ => [])
    {
      var lists := NewBuckets(sourceCount, bucketCount);
      this.sourceCount := sourceCount;
      this.buckets := lists;
      this.layout := seq(bucketCount, _ => []);
      this.nodes := {};
      this.sizes := seq(sourceCount, _ => seq(bucketCount, _ => 0));
    }

    // The nodes of the other buckets: each node knows the list it belongs to.
    ghost function NodesBut(b: nat): set<Node<KVRecord>>
      requires b < |buckets|
      reads `nodes
    {
      set n | n in nodes && n.owner != buckets[b]
    }

    function ValidPosition(source: int, bucket: nat, index: int, insert: bool): Result<()>
      requires bucket < |layout| && Counts(sizes, layout, sourceCount, bucket)
      reads `sizes, `layout
    {
      if source < 0 || source >= sourceCount then Err(SourceOutOfRange)
      else
        var limit := sizes[source][bucket];
        if index < 0 || index > limit || (!insert && index == limit) then Err(IndexOutOfRange)
        else Ok(())
    }

    // An operation on one bucket leaves the others as they were.
    twostate lemma OneBucketChanged(b: nat)
      requires old(Linked()) && b < |buckets|
      requires layout == old(layout)[b := buckets[b].grid] && nodes == old(nodes) + OwnNodes(b) && BucketValid(b)
      requires forall c :: 0 <= c < |buckets| && c != b ==> unchanged(buckets[c])
      requires unchanged(old(NodesBut(b)))
      requires forall k :: 0 <= k < |buckets[b].nodes| ==>
                 buckets[b].nodes[k] in old(buckets[b].nodes) || fresh(buckets[b].nodes[k])
      ensures Linked() && NodesGrown()
    {
      forall c | 0 <= c < |buckets| && c != b ensures OwnNodes(c) == old(OwnNodes(c)) && BucketValid(c) {
        BucketKept((b, c));
      }
      assert old(OwnNodes(b)) <= old(nodes);
      forall n | n in nodes && n !in old(nodes) ensures fresh(n) {
        var k :| 0 <= k < |buckets[b].nodes| && buckets[b].nodes[k] == n;
        assert n !in old(OwnNodes(b));
      }
    }

    twostate lemma BucketKept(pair: (nat, nat))
      requires old(Linked()) && pair.0 < |buckets| && pair.1 < |buckets| && pair.0 != pair.1
      requires |layout| == |buckets| && layout[pair.1] == old(layout)[pair.1]
      requires unchanged(buckets[pair.1]) && unchanged(old(NodesBut(pair.0)))
      ensures OwnNodes(pair.1) == old(OwnNodes(pair.1)) && BucketValid(pair.1)
    {
      assert old(BucketValid(pair.1)) && old(OwnNodes(pair.1)) <= old(nodes);
      assert forall n :: n in old(OwnNodes(pair.1)) ==> n.owner == buckets[pair.1];
      assert old(OwnNodes(pair.1)) <= old(NodesBut(pair.0));
    }

    method Insert(source: int, index: int, key: u64, value: u64) returns (r: Result<()>)
      requires Valid()
      modifies this, buckets, nodes
      ensures Valid() && NodesGrown()
      ensures r.Ok? <==> FitsNew(old(layout), sourceCount, source, index, key)
      ensures r.Ok? <==>
                0 <= source < sourceCount && 0 <= index <= |Project(old(layout)[Bucket(key, |layout|)], source)|
      ensures r.Ok? ==> layout == Inserted(old(layout), sourceCount, source, index, KVRecord(key, value))
      ensures r.Err? ==> layout == old(layout)
    {
      var b := Bucket(key, |buckets|);
      assert Counts(sizes, layout, sourceCount, b);
      r := ValidPosition(source, b, index, true);
      if r.Err? {
        return;
      }
      InsertedKeeps(sizes, layout, sourceCount, source, index, KVRecord(key, value));
      InsertIn(b, source, index, KVRecord(key, value));
      sizes := Resized(sizes, source, b, 1);
    }

    method InsertIn(b: nat, source: nat, index: nat, record: KVRecord)
      requires Linked() && b < |buckets| && source < sourceCount && index <= |Project(layout[b], source)|
      requires BucketValid(b)
      modifies `layout, `nodes, buckets, nodes
      ensures Linked() && NodesGrown()
      ensures layout == old(layout)[b := Grids.Insert(old(layout)[b], sourceCount, source, index, record)]
    {
      buckets[b].Insert(source, index, record);
      layout, nodes := layout[b := buckets[b].grid], nodes + OwnNodes(b);
      OneBucketChanged(b);
    }

    method Replace(source: int, index: int, key: u64, oldValue: u64, newValue: u64) returns (r: Result<()>)
      requires Valid()
      modifies this, buckets, nodes
      ensures Valid() && NodesGrown()
      ensures r.Ok? <==> Fits(old(layout), sourceCount, source, index, key)
      ensures r.Ok? <==> 0 <= source < sourceCount && 0 <= index < |Project(old(layout)[Bucket(key, |layout|)], source)|
      ensures r.Ok? ==> layout == Replaced(old(layout), sourceCount, source, index, key, oldValue, newValue)
      ensures r.Ok? ==> SameNodes(old(layout), layout)
      ensures r.Err? ==> layout == old(layout)
    {
      var b := Bucket(key, |buckets|);
      assert Counts(sizes, layout, sourceCount, b);
      r := ValidPosition(source, b, index, false);
      if r.Err? {
        return;
      }
      ReplacedKeeps(sizes, layout, sourceCount, source, index, key, oldValue, newValue);
      ReplacedMovesNothing(layout, sourceCount, source, index, key, oldValue, newValue);
      AdjustIn(b, source, index, KVRecord(0, Xor64(oldValue, newValue)));
    }

    method AdjustIn(b: nat, source: nat, index: nat, delta: KVRecord)
      requires Linked() && b < |buckets| && source < sourceCount && index < |Project(layout[b], source)|
      requires BucketValid(b)
      modifies `layout, `nodes, buckets, nodes
      ensures Linked() && NodesGrown()
      ensures var g := old(layout)[b];
              var i := NodeOf(g, source, index);
              var x := Xor(RECORD_OPS, Project(g, source)[index], delta);
              layout == old(layout)[b := g[i := g[i][source := Some(x)]]]
    {
      buckets[b].Adjust(source, index, delta);
      layout, nodes := layout[b := buckets[b].grid], nodes + OwnNodes(b);
      OneBucketChanged(b);
    }

    /** The caller names the record it takes out, and nothing checks it; DeletedAs says what a wrong one does. */
    method Delete(source: int, index: int, key: u64, value: u64) returns (r: Result<()>)
      requires Valid()
      modifies this, buckets, nodes
      ensures Valid() && NodesGrown()
      ensures r.Ok? <==> Fits(old(layout), sourceCount, source, index, key)
      ensures r.Ok? <==> 0 <= source < sourceCount && 0 <= index < |Project(old(layout)[Bucket(key, |layout|)], source)|
      ensures r.Ok? ==> layout == DeletedAs(old(layout), sourceCount, source, index, KVRecord(key, value))
      ensures r.Err? ==> layout == old(layout)
    {
      var b := Bucket(key, |buckets|);
      assert Counts(sizes, layout, sourceCount, b);
      r := ValidPosition(source, b, index, false);
      if r.Err? {
        return;
      }
      DeletedKeeps(sizes, layout, sourceCount, source, index, KVRecord(key, value));
      DeleteIn(b, source, index, KVRecord(key, value));
      sizes := Resized(sizes, source, b, -1);
    }

    method DeleteIn(b: nat, source: nat, index: nat, record: KVRecord)
      requires Linked() && b < |buckets| && source < sourceCount && index < |Project(layout[b], source)|
      requires BucketValid(b)
      modifies `layout, `nodes, buckets, nodes
      ensures Linked() && NodesGrown()
      ensures layout == old(layout)[b := DeleteAs(RECORD_OPS, old(layout)[b], sourceCount, source, index, record)]
    {
      buckets[b].Delete(source, index, record);
      layout, nodes := layout[b := buckets[b].grid], nodes + OwnNodes(b);
      OneBucketChanged(b);
    }

    // ----- Recover

    method GroupRecords(records: seq<KVRecord>) returns (groups: seq<seq<KVRecord>>)
      requires |buckets| > 0
      ensures |groups| == |buckets|
      ensures forall b :: 0 <= b < |groups| ==> groups[b] == Group(records, b, |buckets|)
    {
      groups := seq(|buckets|, _ => []);
      for i := 0 to |records|
        invariant |groups| == |buckets|
        invariant forall b :: 0 <= b < |groups| ==> groups[b] == Group(records[..i], b, |buckets|)
      {
        var bucket := Bucket(records[i].key, |buckets|);
        assert records[..i + 1][..i] == records[..i];
        groups := groups[bucket := groups[bucket] + [records[i]]];
      }
      assert records[..|records|] == records;
    }

    /** One survivor's records, bucket by bucket and sorted; fails when a bucket's
        size is not the one on file. */
    method SortSurvivor(source: nat, records: seq<KVRecord>) returns (groups: seq<seq<KVRecord>>, ok: bool)
      requires Valid() && source < sourceCount
      ensures ok <==> SizesFit(layout, source, records)
      ensures ok ==> Grouped(layout, source, records, groups)
    {
      groups := GroupRecords(records);
      for b := 0 to |buckets|
        invariant |groups| == |buckets|
        invariant forall c :: b <= c < |buckets| ==> groups[c] == Group(records, c, |buckets|)
        invariant forall c :: 0 <= c < b ==>
                    && SortedByKey(groups[c]) && multiset(groups[c]) == multiset(Group(records, c, |buckets|))
                    && |Group(records, c, |buckets|)| == |Project(layout[c], source)|
      {
        var sorted := SortByKey(groups[b]);
        assert |sorted| == |multiset(sorted)| == |groups[b]|;
        groups := groups[b := sorted];
        assert Counts(sizes, layout, sourceCount, b);
        if |groups[b]| != sizes[source][b] {
          return groups, false;
        }
      }
      ok := true;
    }

    /** The missing source's records of one bucket. */
    method RecoverBucket(b: nat, missing: nat, grouped: map<int, seq<seq<KVRecord>>>) returns (out: seq<KVRecord>)
      requires Valid() && b < |buckets| && missing < sourceCount
      requires grouped.Keys == Others(sourceCount, missing)
      requires forall s :: s in grouped ==> SizedAs(layout, s, grouped[s])
      ensures (forall s :: s in grouped ==> MatchesIn(layout, s, grouped[s], b))
              ==> out == Project(layout[b], missing)
    {
      assert BucketValid(b);
      OthersComplete(sourceCount, missing, grouped.Keys);
      var parts := map s | s in grouped :: grouped[s][b];
      assert parts.Keys == grouped.Keys;
      var values, ok := buckets[b].Peel(parts);
      out := buckets[b].Collect(values, missing, parts.Keys);
    }

    /** Accepts exactly the survivors whose numbers and sizes fit; and when they
        are truthful, gives back the missing table as its key-sorted listing. */
    method Recover(missing: int, survivors: map<int, seq<KVRecord>>, ghost tables: seq<Table>)
      returns (r: Result<seq<KVRecord>>)
      requires Valid() && |tables| == sourceCount
      ensures r.Ok? <==> Accepts(layout, sourceCount, missing, survivors)
      ensures r.Ok? <==>
                && 0 <= missing < sourceCount && |survivors| == sourceCount - 1
                && forall s :: s in survivors ==>
                     && 0 <= s < sourceCount && s != missing
                     && forall b :: 0 <= b < |layout| ==>
                          |Group(survivors[s], b, |layout|)| == |Project(layout[b], s)|
      ensures r.Ok? && Truthful(layout, tables, survivors) ==> r.value == Listing(tables[missing])
    {
      if missing < 0 || missing >= sourceCount {
        return Err(SourceOutOfRange);
      }
      if |survivors| != sourceCount - 1 {
        return Err(WrongSurvivorCount);
      }
      var grouped := GroupSurvivors(missing, survivors);
      if grouped.Err? {
        return Err(grouped.error);
      }
      OthersComplete(sourceCount, missing, grouped.value.Keys);
      var recovered := FromGroups(missing, grouped.value, survivors, tables);
      r := Ok(recovered);
    }

    // The missing source from the sorted groups of the others.
    method FromGroups(missing: nat, grouped: map<int, seq<seq<KVRecord>>>, ghost survivors: map<int, seq<KVRecord>>,
                      ghost tables: seq<Table>)
      returns (recovered: seq<KVRecord>)
      requires Valid() && |tables| == sourceCount && missing < sourceCount
      requires grouped.Keys == survivors.Keys == Others(sourceCount, missing)
      requires forall s :: s in survivors ==>
                 0 <= s < sourceCount && Grouped(layout, s, survivors[s], grouped[s]) && SizedAs(layout, s, grouped[s])
      ensures Truthful(layout, tables, survivors) ==> recovered == Listing(tables[missing])
    {
      ghost var parts;
      recovered, parts := Gather(missing, grouped);
      recovered := SortByKey(recovered);
      if Truthful(layout, tables, survivors) {
        AllMatch(layout, tables, survivors, grouped);
        ColumnIsTable(layout, tables, missing, parts, recovered);
      }
    }

    // Visits the survivors in whatever order the map gives them.
    method GroupSurvivors(missing: nat, survivors: map<int, seq<KVRecord>>)
      returns (r: Result<map<int, seq<seq<KVRecord>>>>)
      requires Valid()
      ensures r.Ok? <==> forall s :: s in survivors ==>
                0 <= s < sourceCount && s != missing && SizesFit(layout, s, survivors[s])
      ensures r.Ok? ==> r.value.Keys == survivors.Keys
      ensures r.Ok? ==> forall s :: s in survivors ==>
                Grouped(layout, s, survivors[s], r.value[s]) && SizedAs(layout, s, r.value[s])
    {
      var grouped: map<int, seq<seq<KVRecord>>> := map[];
      var todo := survivors.Keys;
      while todo != {}
        invariant todo <= survivors.Keys && grouped.Keys == survivors.Keys - todo
        invariant forall s :: s in grouped ==>
                    && 0 <= s < sourceCount && s != missing
                    && Grouped(layout, s, survivors[s], grouped[s]) && SizedAs(layout, s, grouped[s])
      {
        var source := AnyOf(todo);
        if source < 0 || source >= sourceCount || source == missing {
          return Err(InvalidSurvivor);
        }
        var groups, ok := SortSurvivor(source, survivors[source]);
        if !ok {
          return Err(WrongSurvivorSize);
        }
        GroupedSized(layout, source, survivors[source], groups);
        grouped, todo := grouped[source := groups], todo - {source};
      }
      r := Ok(grouped);
    }

    // The buckets of the missing source, one after another.
    method Gather(missing: nat, grouped: map<int, seq<seq<KVRecord>>>)
      returns (recovered: seq<KVRecord>, ghost parts: seq<seq<KVRecord>>)
      requires Valid() && missing < sourceCount && grouped.Keys == Others(sourceCount, missing)
      requires forall s :: s in grouped ==> SizedAs(layout, s, grouped[s])
      ensures recovered == Flatten(parts)
      ensures (forall s :: s in grouped ==> MatchesColumn(layout, s, grouped[s])) ==>
                MatchesColumn(layout, missing, parts)
    {
      recovered, parts := [], [];
      for b := 0 to |buckets|
        invariant |parts| == b && recovered == Flatten(parts)
        invariant (forall s :: s in grouped ==> MatchesColumn(layout, s, grouped[s])) ==>
                    forall c :: 0 <= c < b ==> parts[c] == Project(layout[c], missing)
      {
        var out := RecoverBucket(b, missing, grouped);
        assert (parts + [out])[..b] == parts;
        recovered := recovered + out;
        parts := parts + [out];
      }
    }

    // ----- counting

    method NodeCount() returns (total: nat)
      requires Valid()
      ensures total == Space.Nodes(layout)
    {
      total := 0;
      for b := 0 to |buckets|
        invariant total == Space.Nodes(layout[..b])
      {
        assert BucketValid(b);
        var count := buckets[b].NodeCount();
        assert layout[..b + 1][..b] == layout[..b];
        total := total + count;
      }
      assert layout[..|layout|] == layout;
    }

    method SourceRecordCount() returns (total: int)
      requires Valid()
      ensures total == Space.AllRecords(layout, sourceCount)
    {
      total := 0;
      for s := 0 to |sizes|
        invariant total == Space.AllRecords(layout, s)
      {
        assert Counts(sizes, layout, sourceCount, 0);
        ghost var before := total;
        for b := 0 to |sizes[s]|
          invariant total == before + Space.SourceRecords(layout[..b], s)
        {
          assert Counts(sizes, layout, sourceCount, b);
          assert layout[..b + 1][..b] == layout[..b];
          total := total + sizes[s][b];
        }
        assert layout[..|layout|] == layout;
      }
      assert Counts(sizes, layout, sourceCount, 0);
    }

    /** Never more than a full copy's records, less those the buckets share, at 16 bytes and a bit field each. */
    method LogicalBytes() returns (bytes: int)
      requires Valid()
      ensures bytes == Space.Bytes(layout, sourceCount)
      ensures var width := Space.BitFieldBytes(sourceCount);
              sourceCount <= 8 * width < sourceCount + 8 && bytes == Space.Nodes(layout) * (16 + width)
      ensures var records, shared := Space.AllRecords(layout, sourceCount), Space.Shared(layout, sourceCount);
              bytes <= (records - shared) * Space.NodeBytes(sourceCount)
      ensures forall s: nat :: Space.SourceRecords(layout, s) * Space.NodeBytes(sourceCount) <= bytes
    {
      var bitFieldBytes := (sourceCount + 7) / 8;
      var nodes := NodeCount();
      bytes := nodes * (16 + bitFieldBytes);
      Space.LayoutBound(layout, sourceCount);
      Scale(nodes, Space.AllRecords(layout, sourceCount) - Space.Shared(layout, sourceCount), 16 + bitFieldBytes);
      forall s: nat ensures Space.SourceRecords(layout, s) * (16 + bitFieldBytes) <= bytes {
        Space.LongestSourceFits(layout, s);
        Scale(Space.SourceRecords(layout, s), nodes, 16 + bitFieldBytes);
      }
    }
  }

  /** Two backups of the same tables, say one grown by Put and Delete and one rebuilt
      at opening, answer alike: both refuse, or from true survivors both return the same records. */
  method RecoverAlike(f: FusedKVHashTable, g: FusedKVHashTable, missing: int, survivors: map<int, seq<KVRecord>>,
                      ghost tables: seq<Table>)
    returns (a: Result<seq<KVRecord>>, b: Result<seq<KVRecord>>)
    requires f.Valid() && g.Valid() && |f.layout| == |g.layout| && f.sourceCount == g.sourceCount == |tables|
    requires Fuses(f.layout, tables) && Fuses(g.layout, tables)
    ensures a.Ok? <==> b.Ok?
    ensures a.Ok? ==> 0 <= missing < |tables|
    ensures a.Ok? && Truthful(f.layout, tables, survivors) ==> a.value == b.value == Listing(tables[missing])
  {
    AcceptAlike(f.layout, g.layout, tables, missing, survivors);
    a := f.Recover(missing, survivors, tables);
    b := g.Recover(missing, survivors, tables);
  }
}
