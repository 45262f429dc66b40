/** The fused backup as the database grows it: which Puts it went through decides
    how much room it takes. */
module Growth {
  import opened Words
  import opened Grids
  import opened Tables
  import opened KVLayouts
  import opened Storage

  /** The fused lists and, for each shard, the table they fuse. */
  datatype Backup = Backup(layout: Layout, tables: seq<Table>)

  ghost predicate Sound(x: Backup) {
    Fuses(x.layout, x.tables) && |x.tables| > 0
  }

  /** How many of the keys are below key. */
  function RankIn(rs: seq<KVRecord>, key: u64): nat {
    if rs == [] then 0
    else RankIn(rs[..|rs| - 1], key) + if rs[|rs| - 1].key < key then 1 else 0
  }

  lemma {:induction false} RankUnique(rs: seq<KVRecord>, key: u64, i: nat)
    requires IsRank(rs, key, i)
    ensures RankIn(rs, key) == i
  {
    if rs != [] {
      RankUnique(rs[..|rs| - 1], key, if i < |rs| then i else i - 1);
    }
  }

  lemma {:induction false} RankExists(rs: seq<KVRecord>, key: u64)
    requires Ascending(rs)
    ensures IsRank(rs, key, RankIn(rs, key))
  {
    if rs != [] {
      BelowLast(rs);
      RankExists(rs[..|rs| - 1], key);
    }
  }

  ghost function OwnRank(x: Backup, r: KVRecord): (k: nat)
    requires Sound(x)
    ensures var own := InBucket(x.tables[Bucket(r.key, |x.tables|)], Bucket(r.key, |x.layout|), |x.layout|);
            IsRank(Listing(own), r.key, k)
  {
    var own := InBucket(x.tables[Bucket(r.key, |x.tables|)], Bucket(r.key, |x.layout|), |x.layout|);
    ListingLists(own);
    RankExists(Listing(own), r.key);
    RankIn(Listing(own), r.key)
  }

  lemma RankIsOwn(x: Backup, r: KVRecord, k: nat)
    requires Sound(x)
    requires var own := InBucket(x.tables[Bucket(r.key, |x.tables|)], Bucket(r.key, |x.layout|), |x.layout|);
             IsRank(Listing(own), r.key, k)
    ensures OwnRank(x, r) == k
  {
    var own := InBucket(x.tables[Bucket(r.key, |x.tables|)], Bucket(r.key, |x.layout|), |x.layout|);
    RankUnique(Listing(own), r.key, k);
    RankUnique(Listing(own), r.key, OwnRank(x, r));
  }

  /** A Put of the database: the key's shard, at the rank of the key in its bucket. */
  ghost function AfterPut(x: Backup, r: KVRecord): (y: Backup)
    requires Sound(x)
    ensures Sound(y) && |y.tables| == |x.tables| && |y.layout| == |x.layout|
  {
    var s, k := Bucket(r.key, |x.tables|), OwnRank(x, r);
    PutFuses(x.layout, x.tables, s, k, r.key, r.value);
    Backup(Put(x.layout, x.tables, s, k, r.key, r.value), x.tables[s := With(x.tables[s], r.key, r.value)])
  }

  /** A Delete of the database; of a key that is not there it changes nothing. */
  ghost function AfterDelete(x: Backup, key: u64): (y: Backup)
    requires Sound(x)
    ensures Sound(y) && |y.tables| == |x.tables| && |y.layout| == |x.layout|
  {
    var s := Bucket(key, |x.tables|);
    if key !in x.tables[s] then x
    else
      var r := KVRecord(key, x.tables[s][key]);
      DeleteFuses(x.layout, x.tables, s, OwnRank(x, r), key);
      Backup(DeletedAs(x.layout, |x.tables|, s, OwnRank(x, r), r), x.tables[s := WithoutKey(x.tables[s], key)])
  }

  /** Puts one after another. */
  ghost function AfterPuts(x: Backup, puts: seq<KVRecord>): (y: Backup)
    requires Sound(x)
    ensures Sound(y) && |y.tables| == |x.tables| && |y.layout| == |x.layout|
  {
    if puts == [] then x else AfterPut(AfterPuts(x, puts[..|puts| - 1]), puts[|puts| - 1])
  }

  ghost function EmptyBackup(n: nat): (x: Backup)
    requires n > 0
    ensures Sound(x) && |x.tables| == n && |x.layout| == BUCKETS
    ensures forall b :: 0 <= b < BUCKETS ==> x.layout[b] == []
    ensures forall s :: 0 <= s < n ==> x.tables[s] == map[]
  {
    EmptyFuses(BUCKETS, n);
    Backup(seq(BUCKETS, _ => []), seq(n, _ => map[]))
  }

  // ----- one step

  /** A new key goes into its own bucket and its own shard. */
  lemma NewPut(x: Backup, r: KVRecord)
    requires Sound(x) && r.key !in x.tables[Bucket(r.key, |x.tables|)]
    ensures var n, b, y := |x.tables|, Bucket(r.key, |x.layout|), AfterPut(x, r);
            var s, k := Bucket(r.key, n), OwnRank(x, r);
            && Shaped(x.layout, n) && FitsNew(x.layout, n, s, k, r.key)
            && y.layout == Inserted(x.layout, n, s, k, r)
            && y.tables == x.tables[s := With(x.tables[s], r.key, r.value)]
            && Project(x.layout[b], s) == Listing(InBucket(x.tables[s], b, |x.layout|))
  {
    var s, k := Bucket(r.key, |x.tables|), OwnRank(x, r);
    PutFuses(x.layout, x.tables, s, k, r.key, r.value);
    StepOf(x.layout, x.tables, Bucket(r.key, |x.layout|), s);
  }

  /** A known key keeps its node. */
  lemma KnownPut(x: Backup, r: KVRecord)
    requires Sound(x) && r.key in x.tables[Bucket(r.key, |x.tables|)]
    ensures SameNodes(x.layout, AfterPut(x, r).layout)
  {
    var s, k := Bucket(r.key, |x.tables|), OwnRank(x, r);
    PutFuses(x.layout, x.tables, s, k, r.key, r.value);
    ReplacedMovesNothing(x.layout, |x.tables|, s, k, r.key, x.tables[s][r.key], r.value);
  }

  /** Below all keys of its shard. */
  lemma FirstRank(x: Backup, r: KVRecord)
    requires Sound(x) && forall key :: key in x.tables[Bucket(r.key, |x.tables|)] ==> r.key < key
    ensures OwnRank(x, r) == 0
  {
    var own := InBucket(x.tables[Bucket(r.key, |x.tables|)], Bucket(r.key, |x.layout|), |x.layout|);
    ListingLists(own);
    if OwnRank(x, r) > 0 {
      assert Listing(own)[0] in Listing(own);
    }
  }

  /** Above all of them. */
  lemma LastRank(x: Backup, r: KVRecord)
    requires Sound(x) && forall key :: key in x.tables[Bucket(r.key, |x.tables|)] ==> key < r.key
    ensures var own := InBucket(x.tables[Bucket(r.key, |x.tables|)], Bucket(r.key, |x.layout|), |x.layout|);
            OwnRank(x, r) == |Listing(own)|
  {
    var own := InBucket(x.tables[Bucket(r.key, |x.tables|)], Bucket(r.key, |x.layout|), |x.layout|);
    ListingLists(own);
    if OwnRank(x, r) < |Listing(own)| {
      assert Listing(own)[OwnRank(x, r)] in Listing(own);
    }
  }

  lemma SplitWith(m: Table, n: nat, key: u64, value: u64)
    requires n > 0
    ensures var s := Bucket(key, n);
            Split(With(m, key, value), n) == Split(m, n)[s := With(Split(m, n)[s], key, value)]
  {
    forall s | 0 <= s < n ensures InBucket(With(m, key, value), s, n) ==
      if Bucket(key, n) == s then With(InBucket(m, s, n), key, value) else InBucket(m, s, n)
    {
      InBucketPut(m, key, value, s, n);
    }
  }
}
