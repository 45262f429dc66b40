/** structures/hashtable.go: hash tables of 32-bit keys and values, fused bucket
    by bucket as ascending lists of packed 64-bit words. */
module FusedHashTables {
  import opened Words
  import opened Tables
  import opened Sets
  import opened Results
  import opened FusedLists
  import opened LinkedLists

  const LIMIT32: nat := 0x1_0000_0000
  type u32 = x: int | 0 <= x < LIMIT32

  // ----- packing

  function Pack(key: u32, value: u32): u64 {
    key * LIMIT32 + value
  }

  function Unpack(word: u64): (u32, u32) {
    (word / LIMIT32, word % LIMIT32)
  }

  /** Pack and Unpack are inverse. */
  lemma PackUnpack(key: u32, value: u32, word: u64)
    ensures Unpack(Pack(key, value)) == (key, value)
    ensures Pack(Unpack(word).0, Unpack(word).1) == word
  {
  }

  /** Words compare as keys do, and values only under equal keys. */
  lemma PackOrder(a: u32, x: u32, b: u32, y: u32)
    ensures Pack(a, x) < Pack(b, y) <==> a < b || (a == b && x < y)
  {
  }

  /** A Go map from uint32 to uint32. */
  ghost predicate Small(m: Table) {
    forall k :: k in m ==> k < LIMIT32 && m[k] < LIMIT32
  }

  ghost predicate SmallRecords(rs: seq<KVRecord>) {
    forall i :: 0 <= i < |rs| ==> rs[i].key < LIMIT32 && rs[i].value < LIMIT32
  }

  function WordsOf(rs: seq<KVRecord>): (words: seq<u64>)
    requires forall i :: 0 <= i < |rs| ==> rs[i].key < LIMIT32 && rs[i].value < LIMIT32
  {
    seq(|rs|, i requires 0 <= i < |rs| => Pack(rs[i].key, rs[i].value))
  }

  lemma SmallListing(m: Table)
    requires Small(m)
    ensures SmallRecords(Listing(m))
  {
    ListingLists(m);
    forall i | 0 <= i < |Listing(m)| ensures Listing(m)[i].key < LIMIT32 && Listing(m)[i].value < LIMIT32 {
      assert Listing(m)[i] in Listing(m);
    }
  }

  /** The strictly increasing words of a table. */
  ghost function Packed(m: Table): (words: seq<u64>)
    requires Small(m)
  {
    SmallListing(m);
    WordsOf(Listing(m))
  }

  lemma PackedIncreases(m: Table)
    requires Small(m)
    ensures forall i, j :: 0 <= i < j < |Packed(m)| ==> Packed(m)[i] < Packed(m)[j]
    ensures Sorted(Packed(m))
  {
    ListingLists(m);
    SmallListing(m);
    var rs := Listing(m);
    forall i, j | 0 <= i < j < |rs| ensures Packed(m)[i] < Packed(m)[j] {
      PackOrder(rs[i].key, rs[i].value, rs[j].key, rs[j].value);
    }
  }

  /** Searching for an entry's word finds the rank of its key, when the key has that value or none. */
  lemma RankOfWord(m: Table, key: u32, value: u32, i: nat)
    requires Small(m) && i <= |Packed(m)| && (key in m ==> m[key] == value)
    requires forall k :: 0 <= k < i ==> Packed(m)[k] < Pack(key, value)
    requires forall k :: i <= k < |Packed(m)| ==> Pack(key, value) <= Packed(m)[k]
    ensures IsRank(Listing(m), key, i)
  {
    ListingLists(m);
    SmallListing(m);
    var rs := Listing(m);
    forall k | 0 <= k < |rs| ensures if k < i then rs[k].key < key else key <= rs[k].key {
      assert rs[k] in rs;
      PackOrder(rs[k].key, rs[k].value, key, value);
      assert Packed(m)[k] == Pack(rs[k].key, rs[k].value);
    }
  }

  lemma PackedPut(m: Table, key: u32, value: u32, i: nat)
    requires Small(m) && key !in m && IsRank(Listing(m), key, i)
    ensures Small(With(m, key, value)) && i <= |Packed(m)|
    ensures Packed(With(m, key, value)) == Inserted(Packed(m), i, Pack(key, value))
  {
    ListingPut(m, key, value, i);
    SmallListing(m);
    SmallListing(With(m, key, value));
    MapInserted(Listing(m), i, KVRecord(key, value));
  }

  lemma MapInserted(rs: seq<KVRecord>, i: nat, r: KVRecord)
    requires i <= |rs| && SmallRecords(rs) && SmallRecords(Inserted(rs, i, r)) && r.key < LIMIT32 && r.value < LIMIT32
    ensures WordsOf(Inserted(rs, i, r)) == Inserted(WordsOf(rs), i, Pack(r.key, r.value))
  {
  }

  lemma PackedRemove(m: Table, key: u32, i: nat)
    requires Small(m) && key in m && IsRank(Listing(m), key, i)
    ensures Small(WithoutKey(m, key)) && i < |Packed(m)|
    ensures Packed(WithoutKey(m, key)) == Removed(Packed(m), i)
  {
    ListingRemove(m, key, i);
    SmallListing(m);
    SmallListing(WithoutKey(m, key));
    MapRemoved(Listing(m), i);
  }

  lemma MapRemoved(rs: seq<KVRecord>, i: nat)
    requires SmallRecords(rs) && i < |rs| && SmallRecords(Removed(rs, i))
    ensures WordsOf(Removed(rs, i)) == Removed(WordsOf(rs), i)
  {
  }

  // ----- all buckets of all sources

  type WordGrid = seq<seq<seq<u64>>>

  ghost predicate AllSmall(tables: seq<Table>) {
    forall s :: 0 <= s < |tables| ==> Small(tables[s])
  }

  lemma SmallBucket(m: Table, b: nat, count: nat)
    requires Small(m) && count > 0
    ensures Small(InBucket(m, b, count))
  {
  }

  /** Bucket b of source s is the increasing list of the entries that hash to b. */
  ghost predicate Packs(words: WordGrid, tables: seq<Table>) {
    && |words| > 0 && AllSmall(tables)
    && forall b, s :: 0 <= b < |words| && 0 <= s < |tables| ==> InStep(words, tables, b, s)
  }

  ghost predicate InStep(words: WordGrid, tables: seq<Table>, b: nat, s: nat)
    requires b < |words| && s < |tables| && Small(tables[s])
  {
    SmallBucket(tables[s], b, |words|);
    |words[b]| == |tables| && words[b][s] == Packed(InBucket(tables[s], b, |words|))
  }

  /** One bucket's list and one table change together. */
  lemma StepPacks(words: WordGrid, tables: seq<Table>, b: nat, s: nat, list: seq<u64>, m: Table)
    requires Packs(words, tables) && b < |words| && s < |tables| && |words[b]| == |tables| && Small(m)
    requires forall c :: 0 <= c < |words| && c != b ==> InBucket(m, c, |words|) == InBucket(tables[s], c, |words|)
    requires Small(InBucket(m, b, |words|)) && list == Packed(InBucket(m, b, |words|))
    ensures Packs(words[b := words[b][s := list]], tables[s := m])
  {
    var words', tables' := words[b := words[b][s := list]], tables[s := m];
    forall c, t | 0 <= c < |words| && 0 <= t < |tables| ensures InStep(words', tables', c, t) {
      assert InStep(words, tables, c, t);
    }
  }

  lemma PutPacks(words: WordGrid, tables: seq<Table>, s: nat, key: u32, value: u32, i: nat)
    requires Packs(words, tables) && s < |tables| && key !in tables[s]
    requires IsRank(Listing(InBucket(tables[s], Bucket(key, |words|), |words|)), key, i)
    ensures var b := Bucket(key, |words|);
            && |words[b]| == |tables| && i <= |words[b][s]|
            && Packs(words[b := words[b][s := Inserted(words[b][s], i, Pack(key, value))]],
                     tables[s := With(tables[s], key, value)])
  {
    var b, n := Bucket(key, |words|), |words|;
    assert InStep(words, tables, b, s);
    SmallBucket(tables[s], b, n);
    PackedPut(InBucket(tables[s], b, n), key, value, i);
    forall c | 0 <= c < n
      ensures InBucket(With(tables[s], key, value), c, n) ==
              if c == b then With(InBucket(tables[s], c, n), key, value) else InBucket(tables[s], c, n)
    {
      InBucketPut(tables[s], key, value, c, n);
    }
    StepPacks(words, tables, b, s, Inserted(words[b][s], i, Pack(key, value)), With(tables[s], key, value));
  }

  lemma RemovePacks(words: WordGrid, tables: seq<Table>, s: nat, key: u32, i: nat)
    requires Packs(words, tables) && s < |tables| && key in tables[s]
    requires IsRank(Listing(InBucket(tables[s], Bucket(key, |words|), |words|)), key, i)
    ensures var b := Bucket(key, |words|);
            && |words[b]| == |tables| && i < |words[b][s]|
            && Packs(words[b := words[b][s := Removed(words[b][s], i)]], tables[s := WithoutKey(tables[s], key)])
  {
    var b, n := Bucket(key, |words|), |words|;
    assert InStep(words, tables, b, s);
    SmallBucket(tables[s], b, n);
    PackedRemove(InBucket(tables[s], b, n), key, i);
    forall c | 0 <= c < n
      ensures InBucket(WithoutKey(tables[s], key), c, n) ==
              if c == b then WithoutKey(InBucket(tables[s], c, n), key) else InBucket(tables[s], c, n)
    {
      InBucketPut(tables[s], key, 0, c, n);
    }
    StepPacks(words, tables, b, s, Removed(words[b][s], i), WithoutKey(tables[s], key));
  }

  // ----- unpacking

  /** Where each word in turn puts its entry. */
  function UnpackAll(out: Table, words: seq<u64>): Table {
    if words == [] then out
    else
      var entry := Unpack(words[|words| - 1]);
      With(UnpackAll(out, words[..|words| - 1]), entry.0, entry.1)
  }

  lemma {:induction false} UnpackLists(out: Table, rs: seq<KVRecord>, m: Table)
    requires SmallRecords(rs) && Lists(rs, m)
    ensures UnpackAll(out, WordsOf(rs)) == out + m
  {
    if rs == [] {
      ListsNothing(m);
      assert out + map[] == out;
    } else {
      var init, last := rs[..|rs| - 1], rs[|rs| - 1];
      ListsInit(rs, m);
      UnpackLists(out, init, WithoutKey(m, last.key));
      UnpackOneMore(out, rs);
      PutLast(out, m, last.key, last.value);
    }
  }

  lemma ListsNothing(m: Table)
    requires Lists([], m)
    ensures m == map[]
  {
    assert forall k :: k in m ==> KVRecord(k, m[k]) in [];
  }

  lemma UnpackOneMore(out: Table, rs: seq<KVRecord>)
    requires rs != [] && SmallRecords(rs)
    ensures var init, last := rs[..|rs| - 1], rs[|rs| - 1];
            UnpackAll(out, WordsOf(rs)) == With(UnpackAll(out, WordsOf(init)), last.key, last.value)
  {
    assert WordsOf(rs)[..|rs| - 1] == WordsOf(rs[..|rs| - 1]);
    UnpackLast(out, WordsOf(rs), rs[|rs| - 1].key, rs[|rs| - 1].value);
  }

  lemma UnpackLast(out: Table, words: seq<u64>, key: u32, value: u32)
    requires words != [] && words[|words| - 1] == Pack(key, value)
    ensures UnpackAll(out, words) == With(UnpackAll(out, words[..|words| - 1]), key, value)
  {
    PackUnpack(key, value, 0);
  }

  lemma PutLast(out: Table, m: Table, key: u64, value: u64)
    requires With(WithoutKey(m, key), key, value) == m
    ensures With(out + WithoutKey(m, key), key, value) == out + m
  {
    assert key in m && m[key] == value;
  }

  lemma UnpackPacked(out: Table, m: Table)
    requires Small(m)
    ensures UnpackAll(out, Packed(m)) == out + m
  {
    ListingLists(m);
    SmallListing(m);
    UnpackLists(out, Listing(m), m);
  }

  // ----- Recover

  /** The survivors that bucket c accepts: as many entries in it as on file. */
  ghost predicate AcceptsIn(tables: seq<Table>, count: nat, missing: int, survivors: map<int, Table>, c: nat)
    requires count > 0
  {
    forall s :: s in survivors ==>
      && 0 <= s < |tables| && s != missing
      && |InBucket(survivors[s], c, count).Keys| == |InBucket(tables[s], c, count).Keys|
  }

  ghost predicate Accepts(tables: seq<Table>, count: nat, missing: int, survivors: map<int, Table>)
    requires count > 0
  {
    && 0 <= missing < |tables| && |survivors| == |tables| - 1
    && (forall s :: s in survivors ==> 0 <= s < |tables| && s != missing)
    && forall c :: 0 <= c < count ==> AcceptsIn(tables, count, missing, survivors, c)
  }

  /** The survivors are what the sources hold. */
  ghost predicate Truthful(tables: seq<Table>, survivors: map<int, Table>) {
    forall s :: s in survivors ==> 0 <= s < |tables| && survivors[s] == tables[s]
  }

  /** The true survivors are never refused. */
  lemma TruthfulAccepted(tables: seq<Table>, count: nat, missing: nat, survivors: map<int, Table>)
    requires count > 0 && missing < |tables| && Truthful(tables, survivors)
    requires forall s :: s in survivors <==> 0 <= s < |tables| && s != missing
    ensures Accepts(tables, count, missing, survivors)
  {
    OthersAre(|tables|, missing, survivors.Keys);
    BelowSize(|tables|);
    assert |survivors.Keys| == |survivors|;
  }

  /** NewFusedHashTable */
  method NewFusedHashTable(sourceCount: int, bucketCount: int) returns (r: Result<FusedHashTable>)
    ensures r.Ok? <==> sourceCount >= 2 && bucketCount >= 1
    ensures r.Ok? ==> fresh(r.value) && fresh(r.value.buckets) && fresh(r.value.Lists()) && r.value.Valid()
    ensures r.Ok? ==> r.value.sources == seq(sourceCount, _ => map[]) && |r.value.buckets| == bucketCount
  {
    if sourceCount < 2 {
      return Err(TooFewSources);
    }
    if bucketCount < 1 {
      return Err(NoBuckets);
    }
    var f := new FusedHashTable(sourceCount, bucketCount);
    r := Ok(f);
  }

  ghost predicate Unused(bucket: FusedLinkedList<u64>, sourceCount: nat)
    reads bucket, bucket.list, bucket.list.nodes
  {
    bucket.Valid() && bucket.list.nodes == [] && bucket.sources == seq(sourceCount, _ => [])
  }

  method NewBuckets(sourceCount: nat, bucketCount: nat) returns (buckets: seq<FusedLinkedList<u64>>)
    ensures |buckets| == bucketCount
    ensures forall b, c :: 0 <= b < c < |buckets| ==> buckets[b] != buckets[c] && buckets[b].list != buckets[c].list
    ensures forall b :: 0 <= b < |buckets| ==>
              && fresh(buckets[b]) && fresh(buckets[b].list) && buckets[b].Valid() && buckets[b].list.nodes == []
              && buckets[b].sources == seq(sourceCount, _ => [])
  {
    WordOpsLawful();
    buckets := [];
    for b := 0 to bucketCount
      invariant |buckets| == b
      invariant forall c, d :: 0 <= c < d < b ==> buckets[c] != buckets[d] && buckets[c].list != buckets[d].list
      invariant forall c :: 0 <= c < b ==>
                  fresh(buckets[c]) && fresh(buckets[c].list) && Unused(buckets[c], sourceCount)
    {
      var bucket := new FusedLinkedList(WORD_OPS, sourceCount);
      buckets := buckets + [bucket];
    }
  }

  // A bucket's Delete where the index is known to be good.
  method DropWord(bucket: FusedLinkedList<u64>, source: nat, index: nat)
    requires bucket.Valid() && source < |bucket.sources| && index < |bucket.sources[source]|
    modifies bucket, bucket.list, bucket.list.nodes
    ensures bucket.Valid() && bucket.NodesGrown()
    ensures bucket.sources == old(bucket.sources)[source := Removed(old(bucket.sources)[source], index)]
  {
    var r := bucket.Delete(source, index);
  }

  class FusedHashTable {
    const buckets: seq<FusedLinkedList<u64>>
    var sources: seq<Table>
    ghost var words: WordGrid  // the sources of the buckets
    ghost var nodes: set<Node<u64>>  // the nodes of all buckets, and perhaps discarded ones

    // The nodes in use are old ones or new ones.
    twostate predicate NodesGrown()
      reads this
    {
      forall n :: n in nodes ==> n in old(nodes) || fresh(n)
    }

    // No bucket's list was touched.
    twostate predicate NothingMoved()
      reads buckets, Lists(), nodes, `nodes
    {
      unchanged(buckets) && unchanged(Lists()) && nodes == old(nodes) && unchanged(nodes)
    }

    ghost function OwnNodes(b: nat): set<Node<u64>>
      requires b < |buckets|
      reads buckets[b].list
    {
      set n | n in buckets[b].list.nodes
    }

    ghost function Lists(): set<FusedList<u64>> {
      set b | 0 <= b < |buckets| :: buckets[b].list
    }

    ghost predicate BucketValid(b: nat)
      requires b < |buckets|
      reads buckets[b], buckets[b].list, OwnNodes(b), `words
    {
      |words| == |buckets| && words[b] == buckets[b].sources && buckets[b].Valid()
    }

    ghost predicate BucketsValid()
      reads buckets, Lists(), nodes, `nodes, `words
    {
      && |words| == |buckets|
      && (forall b, c :: 0 <= b < c < |buckets| ==> buckets[b] != buckets[c] && buckets[b].list != buckets[c].list)
      && forall b :: 0 <= b < |buckets| ==> OwnNodes(b) <= nodes && BucketValid(b)
    }

    /** The buckets hold the entries of the given tables. */
    ghost predicate Holds(tables: seq<Table>)
      reads buckets, Lists(), nodes, `nodes, `words
    {
      BucketsValid() && Packs(words, tables)
    }

    ghost predicate Valid()
      reads this, buckets, Lists(), nodes
    {
      |sources| >= 2 && Holds(sources)
    }

    constructor (sourceCount: nat, bucketCount: nat)
      requires sourceCount >= 2 && bucketCount >= 1
      ensures Valid() && fresh(buckets) && fresh(Lists()) && fresh(nodes)
      ensures sources == seq(sourceCount, _ => map[]) && |buckets| == bucketCount
    {
      var lists := NewBuckets(sourceCount, bucketCount);
      buckets := lists;
      sources := seq(sourceCount, _ => map[]);
      words := seq(bucketCount, _ => seq(sourceCount, _ => []));
      nodes := {};
      EmptyPacks(sourceCount, bucketCount);
    }

    function BucketOf(key: u32): nat
      requires |buckets| > 0
    {
      key % |buckets|
    }

    predicate ValidSource(source: int)
      reads `sources
    {
      0 <= source < |sources|
    }

    // Buckets share no node: each node knows the list it belongs to.
    lemma Apart(b: nat)
      requires BucketsValid() && b < |buckets|
      ensures forall c :: 0 <= c < |buckets| && c != b ==>
                buckets[c] != buckets[b] && buckets[c].list != buckets[b].list && OwnNodes(b) !! OwnNodes(c)
    {
      forall c | 0 <= c < |buckets| && c != b ensures OwnNodes(b) !! OwnNodes(c) {
        assert BucketValid(b) && BucketValid(c);
        assert forall n :: n in OwnNodes(b) ==> n.owner == buckets[b].list;
        assert forall n :: n in OwnNodes(c) ==> n.owner == buckets[c].list;
      }
    }

    // An operation on one bucket leaves the others as they were.
    twostate lemma OneBucketChanged(b: nat)
      requires old(BucketsValid()) && b < |buckets|
      requires words == old(words)[b := buckets[b].sources] && nodes == old(nodes) + OwnNodes(b) && BucketValid(b)
      requires forall c :: 0 <= c < |buckets| && c != b ==>
                 unchanged(buckets[c]) && unchanged(buckets[c].list) && unchanged(old(OwnNodes(c)))
      requires forall n :: n in OwnNodes(b) ==> n in old(OwnNodes(b)) || fresh(n)
      ensures BucketsValid() && NodesGrown()
    {
      assert forall c :: 0 <= c < |buckets| && c != b ==> OwnNodes(c) == old(OwnNodes(c));
      assert forall c :: 0 <= c < |buckets| && c != b ==> BucketValid(c);
    }

    method InsertIn(b: nat, source: nat, index: nat, word: u64)
      requires BucketsValid() && b < |buckets| && source < |words[b]| && index <= |words[b][source]|
      modifies `words, `nodes, buckets, Lists(), nodes
      ensures BucketsValid() && NodesGrown()
      ensures words == old(words)[b := old(words)[b][source := Inserted(old(words)[b][source], index, word)]]
    {
      assert BucketValid(b);
      Apart(b);
      var r := buckets[b].Insert(source, index, word);
      words, nodes := words[b := buckets[b].sources], nodes + OwnNodes(b);
      OneBucketChanged(b);
    }

    method DeleteIn(b: nat, source: nat, index: nat)
      requires BucketsValid() && b < |buckets| && source < |words[b]| && index < |words[b][source]|
      modifies `words, `nodes, buckets, Lists(), nodes
      ensures BucketsValid() && NodesGrown()
      ensures words == old(words)[b := old(words)[b][source := Removed(old(words)[b][source], index)]]
    {
      assert BucketValid(b);
      Apart(b);
      DropWord(buckets[b], source, index);
      words, nodes := words[b := buckets[b].sources], nodes + OwnNodes(b);
      OneBucketChanged(b);
    }

    // The position of an entry, or where it would go.
    method FindRank(source: nat, key: u32, value: u32, ghost tables: seq<Table>) returns (index: nat)
      requires Holds(tables) && source < |tables| && (key in tables[source] ==> tables[source][key] == value)
      ensures |words| == |buckets| > 0
      ensures IsRank(Listing(InBucket(tables[source], BucketOf(key), |words|)), key, index)
    {
      var b := BucketOf(key);
      assert BucketValid(b) && InStep(words, tables, b, source);
      SmallBucket(tables[source], b, |words|);
      PackedIncreases(InBucket(tables[source], b, |words|));
      index := Search(buckets[b].sources[source], Pack(key, value));
      RankOfWord(InBucket(tables[source], b, |words|), key, value, index);
    }

    /** The search hits the very entry, so the bucket's Delete never fails. */
    method DeletePacked(source: nat, key: u32, value: u32, ghost tables: seq<Table>)
      requires Holds(tables) && source < |tables| && key in tables[source] && tables[source][key] == value
      modifies `words, `nodes, buckets, Lists(), nodes
      ensures Holds(tables[source := WithoutKey(tables[source], key)]) && NodesGrown()
    {
      var index := FindRank(source, key, value, tables);
      RemovePacks(words, tables, source, key, index);
      DeleteIn(BucketOf(key), source, index);
    }

    method InsertPacked(source: nat, key: u32, value: u32, ghost tables: seq<Table>)
      requires Holds(tables) && source < |tables| && key !in tables[source]
      modifies `words, `nodes, buckets, Lists(), nodes
      ensures Holds(tables[source := With(tables[source], key, value)]) && NodesGrown()
    {
      var index := FindRank(source, key, value, tables);
      PutPacks(words, tables, source, key, value, index);
      InsertIn(BucketOf(key), source, index, Pack(key, value));
    }

    method Put(source: int, key: u32, value: u32) returns (r: Result<()>)
      requires Valid()
      modifies this, buckets, Lists(), nodes
      ensures Valid() && NodesGrown()
      ensures r.Ok? <==> old(ValidSource(source))
      ensures r.Ok? ==> sources == old(sources)[source := With(old(sources)[source], key, value)]
      ensures r.Ok? && key in old(sources)[source] && old(sources)[source][key] == value ==> NothingMoved()
      ensures r.Err? ==> sources == old(sources)
    {
      if !ValidSource(source) {
        return Err(SourceOutOfRange);
      }
      r := Ok(());
      if key !in sources[source] {
        InsertPacked(source, key, value, sources);
      } else if sources[source][key] == value {
        assert With(sources[source], key, value) == sources[source];
        return;
      } else {
        Exchange(source, key, value);
      }
      sources := sources[source := With(sources[source], key, value)];
    }

    // The old entry goes before the new one comes.
    method Exchange(source: nat, key: u32, value: u32)
      requires Valid() && source < |sources| && key in sources[source]
      modifies `words, `nodes, buckets, Lists(), nodes
      ensures Holds(sources[source := With(sources[source], key, value)]) && NodesGrown()
    {
      assert Small(sources[source]);
      ghost var less := sources[source := WithoutKey(sources[source], key)];
      DeletePacked(source, key, sources[source][key], sources);
      InsertPacked(source, key, value, less);
      PutAfterDelete(sources, source, key, value);
    }

    method Delete(source: int, key: u32) returns (r: Result<bool>)
      requires Valid()
      modifies this, buckets, Lists(), nodes
      ensures Valid() && NodesGrown()
      ensures r.Ok? <==> old(ValidSource(source))
      ensures r.Ok? ==> r.value == (key in old(sources)[source])
      ensures r.Ok? ==> sources == old(sources)[source := WithoutKey(old(sources)[source], key)]
      ensures r.Ok? && !r.value ==> NothingMoved()
      ensures r.Err? ==> sources == old(sources)
    {
      if !ValidSource(source) {
        return Err(SourceOutOfRange);
      }
      if key !in sources[source] {
        assert WithoutKey(sources[source], key) == sources[source];
        return Ok(false);
      }
      assert Small(sources[source]);
      DeletePacked(source, key, sources[source][key], sources);
      sources := sources[source := WithoutKey(sources[source], key)];
      r := Ok(true);
    }

    // ----- Recover

    // The words of a survivor's entries in one bucket, in increasing order.
    method WordsIn(entries: Table, b: nat) returns (list: seq<u64>)
      requires Small(entries) && |buckets| > 0
      ensures Small(InBucket(entries, b, |buckets|)) && list == Packed(InBucket(entries, b, |buckets|))
    {
      SmallBucket(entries, b, |buckets|);
      SmallListing(InBucket(entries, b, |buckets|));
      var records := RecordsFromMap(InBucket(entries, b, |buckets|));
      list := [];
      for i := 0 to |records|
        invariant list == Packed(InBucket(entries, b, |buckets|))[..i]
      {
        list := list + [Pack(records[i].key, records[i].value)];
      }
    }

    method BucketSurvivors(b: nat, missing: nat, survivors: map<int, Table>)
      returns (lists: map<int, seq<u64>>, ok: bool)
      requires |buckets| > 0 && forall s :: s in survivors ==> Small(survivors[s])
      ensures ok <==> forall s :: s in survivors ==> ValidSource(s) && s != missing
      ensures ok ==> lists.Keys == survivors.Keys
      ensures ok ==> forall s :: s in survivors ==>
                Small(InBucket(survivors[s], b, |buckets|)) && lists[s] == Packed(InBucket(survivors[s], b, |buckets|))
    {
      lists := map[];
      var todo := survivors.Keys;
      while todo != {}
        invariant todo <= survivors.Keys && lists.Keys == survivors.Keys - todo
        invariant forall s :: s in lists ==>
                    && ValidSource(s) && s != missing && Small(InBucket(survivors[s], b, |buckets|))
                    && lists[s] == Packed(InBucket(survivors[s], b, |buckets|))
      {
        var source := AnyOf(todo);
        if !ValidSource(source) || source == missing {
          return lists, false;
        }
        var list := WordsIn(survivors[source], b);
        lists, todo := lists[source := list], todo - {source};
      }
      ok := true;
    }

    // One bucket of the missing table; fails when some survivor has another number of entries in it.
    method RecoverBucket(b: nat, missing: nat, survivors: map<int, Table>) returns (r: Result<seq<u64>>)
      requires Valid() && b < |buckets| && missing < |sources| && |survivors| == |sources| - 1
      requires forall s :: s in survivors ==> Small(survivors[s])
      ensures r.Ok? <==> AcceptsIn(sources, |buckets|, missing, survivors, b)
      ensures r.Ok? && Truthful(sources, survivors) ==>
                && Small(InBucket(sources[missing], b, |buckets|))
                && r.value == Packed(InBucket(sources[missing], b, |buckets|))
    {
      assert BucketValid(b);
      BucketSizes(b);
      var lists, ok := BucketSurvivors(b, missing, survivors);
      if !ok {
        return Err(InvalidSurvivor);
      }
      assert |lists.Keys| == |lists| && |survivors.Keys| == |survivors|;
      r := buckets[b].Recover(missing, lists);
      forall s | s in survivors && 0 <= s < |sources|
        ensures |lists[s]| == |InBucket(survivors[s], b, |buckets|).Keys|
        ensures |buckets[b].sources[s]| == |InBucket(sources[s], b, |buckets|).Keys|
      {
        ListingSize(InBucket(survivors[s], b, |buckets|));
        ListingSize(InBucket(sources[s], b, |buckets|));
      }
    }

    method AddBucket(b: nat, missing: nat, survivors: map<int, Table>, before: Table) returns (r: Result<Table>)
      requires Valid() && b < |buckets| && missing < |sources| && |survivors| == |sources| - 1
      requires forall s :: s in survivors ==> Small(survivors[s])
      ensures r.Ok? <==> AcceptsIn(sources, |buckets|, missing, survivors, b)
      ensures r.Ok? && Truthful(sources, survivors) ==>
                r.value == before + InBucket(sources[missing], b, |buckets|)
    {
      var list := RecoverBucket(b, missing, survivors);
      if list.Err? {
        return Err(list.error);
      }
      if Truthful(sources, survivors) {
        UnpackPacked(before, InBucket(sources[missing], b, |buckets|));
      }
      var out := UnpackInto(before, list.value);
      r := Ok(out);
    }

    lemma BucketSizes(b: nat)
      requires Valid() && b < |buckets|
      ensures BucketValid(b) && |buckets[b].sources| == |sources|
      ensures forall s :: 0 <= s < |sources| ==>
                && Small(InBucket(sources[s], b, |buckets|))
                && buckets[b].sources[s] == Packed(InBucket(sources[s], b, |buckets|))
    {
      assert BucketValid(b);
      assert InStep(words, sources, b, 0);
      forall s | 0 <= s < |sources| ensures
        && Small(InBucket(sources[s], b, |buckets|))
        && buckets[b].sources[s] == Packed(InBucket(sources[s], b, |buckets|))
      {
        assert InStep(words, sources, b, s);
        SmallBucket(sources[s], b, |buckets|);
      }
    }

    /** Accepts exactly the survivors whose numbers and bucket sizes fit, and gives
        back the missing map when they are what the sources hold. */
    method Recover(missing: int, survivors: map<int, Table>) returns (r: Result<Table>)
      requires Valid() && forall s :: s in survivors ==> Small(survivors[s])
      ensures r.Ok? <==> Accepts(sources, |buckets|, missing, survivors)
      ensures r.Ok? && Truthful(sources, survivors) ==> r.value == sources[missing]
    {
      if !ValidSource(missing) {
        return Err(SourceOutOfRange);
      }
      if |survivors| != |sources| - 1 {
        return Err(WrongSurvivorCount);
      }
      r := Gather(missing, survivors);
      FirstBucketsStep(sources[missing], 0, |buckets|);
      assert r.Ok? ==> AcceptsIn(sources, |buckets|, missing, survivors, 0);
    }

    // One bucket after another.
    method Gather(missing: nat, survivors: map<int, Table>) returns (r: Result<Table>)
      requires Valid() && missing < |sources| && |survivors| == |sources| - 1
      requires forall s :: s in survivors ==> Small(survivors[s])
      ensures r.Ok? <==> forall c :: 0 <= c < |buckets| ==> AcceptsIn(sources, |buckets|, missing, survivors, c)
      ensures r.Ok? && Truthful(sources, survivors)
              ==> r.value == FirstBuckets(sources[missing], |buckets|, |buckets|)
    {
      var out: Table := map[];
      FirstBucketsStep(sources[missing], 0, |buckets|);
      for b := 0 to |buckets|
        invariant forall c :: 0 <= c < b ==> AcceptsIn(sources, |buckets|, missing, survivors, c)
        invariant Truthful(sources, survivors)
                  ==> out == FirstBuckets(sources[missing], b, |buckets|)
      {
        var more := AddBucket(b, missing, survivors, out);
        if more.Err? {
          return more;
        }
        FirstBucketsStep(sources[missing], b, |buckets|);
        out := more.value;
      }
      r := Ok(out);
    }
  }

  method UnpackInto(before: Table, words: seq<u64>) returns (out: Table)
    ensures out == UnpackAll(before, words)
  {
    out := before;
    for i := 0 to |words|
      invariant out == UnpackAll(before, words[..i])
    {
      var key, value := Unpack(words[i]).0, Unpack(words[i]).1;
      assert words[..i + 1][..i] == words[..i];
      out := out[key := value];
    }
    assert words[..|words|] == words;
  }

  // Deleting first makes no difference to what a Put leaves.
  lemma PutAfterDelete(sources: seq<Table>, s: nat, key: u64, value: u64)
    requires s < |sources|
    ensures var less := sources[s := WithoutKey(sources[s], key)];
            less[s := With(less[s], key, value)] == sources[s := With(sources[s], key, value)]
  {
    assert With(WithoutKey(sources[s], key), key, value) == With(sources[s], key, value);
  }

  lemma EmptyPacks(sourceCount: nat, bucketCount: nat)
    requires bucketCount >= 1
    ensures Packs(seq(bucketCount, _ => seq(sourceCount, _ => [])), seq(sourceCount, _ => map[]))
  {
    var words: WordGrid := seq(bucketCount, _ => seq(sourceCount, _ => []));
    var tables: seq<Table> := seq(sourceCount, _ => map[]);
    forall b, s | 0 <= b < bucketCount && 0 <= s < sourceCount ensures InStep(words, tables, b, s) {
      ListingLists(InBucket(map[], b, bucketCount));
    }
  }
}
