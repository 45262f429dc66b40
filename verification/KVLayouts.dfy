/** A fused key-value table as values: one grid of records for each bucket. */
module KVLayouts {
  import opened Words
  import opened Grids
  import opened Tables

  type Layout = seq<Grid<KVRecord>>

  ghost predicate Shaped(l: Layout, n: nat) {
    forall b :: 0 <= b < |l| ==> Wide(l[b], n) && Tight(l[b])
  }

  /** What the layout holds, [bucket][source]. */
  ghost function Held(l: Layout, n: nat): seq<seq<seq<KVRecord>>> {
    seq(|l|, b requires 0 <= b < |l| => seq(n, s requires s >= 0 => Project(l[b], s)))
  }

  /** The tables, split into buckets and listed in key order. */
  ghost function Listings(count: nat, tables: seq<Table>): seq<seq<seq<KVRecord>>>
    requires count > 0
  {
    seq(count, b requires b >= 0 =>
      seq(|tables|, s requires 0 <= s < |tables| => Listing(InBucket(tables[s], b, count))))
  }

  /** Every bucket fuses the bucket's records of all the tables, in key order. */
  ghost predicate Fuses(l: Layout, tables: seq<Table>) {
    |l| > 0 && Shaped(l, |tables|) && Held(l, |tables|) == Listings(|l|, tables)
  }

  ghost predicate InStep(l: Layout, tables: seq<Table>, b: nat, s: nat)
    requires b < |l| && s < |tables|
  {
    Project(l[b], s) == Listing(InBucket(tables[s], b, |l|))
  }

  lemma StepOf(l: Layout, tables: seq<Table>, b: nat, s: nat)
    requires Fuses(l, tables) && b < |l| && s < |tables|
    ensures InStep(l, tables, b, s)
  {
    assert Held(l, |tables|)[b][s] == Listings(|l|, tables)[b][s];
  }

  lemma SameCube<T>(a: seq<seq<T>>, b: seq<seq<T>>, m: nat, n: nat)
    requires |a| == |b| == m && forall i :: 0 <= i < m ==> |a[i]| == |b[i]| == n
    requires forall i, j :: 0 <= i < m && 0 <= j < n ==> a[i][j] == b[i][j]
    ensures a == b
  {
    assert forall i :: 0 <= i < m ==> a[i] == b[i];
  }

  lemma StepByStep(l: Layout, tables: seq<Table>)
    requires |l| > 0 && Shaped(l, |tables|)
    requires forall b, s :: 0 <= b < |l| && 0 <= s < |tables| ==> InStep(l, tables, b, s)
    ensures Fuses(l, tables)
  {
    var held, listings := Held(l, |tables|), Listings(|l|, tables);
    forall b, s | 0 <= b < |l| && 0 <= s < |tables| ensures held[b][s] == listings[b][s] {
      assert InStep(l, tables, b, s);
    }
    SameCube(held, listings, |l|, |tables|);
  }

  /** The size table of the implementation, [source][bucket], counts the records of bucket b. */
  ghost predicate Counts(sizes: seq<seq<int>>, l: Layout, n: nat, b: nat)
    requires b < |l|
  {
    && |sizes| == n
    && forall s :: 0 <= s < n ==> |sizes[s]| == |l| && sizes[s][b] == |Project(l[b], s)|
  }

  ghost predicate AllCounts(sizes: seq<seq<int>>, l: Layout, n: nat) {
    forall b :: 0 <= b < |l| ==> Counts(sizes, l, n, b)
  }

  lemma CountsChange(sizes: seq<seq<int>>, l: Layout, n: nat, b: nat, g: Grid<KVRecord>, s: nat, size: int)
    requires b < |l| && s < n && AllCounts(sizes, l, n)
    requires size == |Project(g, s)|
    requires forall t: nat :: t != s ==> |Project(g, t)| == |Project(l[b], t)|
    ensures |sizes| == n && |sizes[s]| == |l|
    ensures AllCounts(sizes[s := sizes[s][b := size]], l[b := g], n)
  {
    assert Counts(sizes, l, n, b);
    var resized, changed := sizes[s := sizes[s][b := size]], l[b := g];
    forall c | 0 <= c < |l| ensures Counts(resized, changed, n, c) {
      assert Counts(sizes, l, n, c);
    }
  }

  lemma ShapedChange(l: Layout, n: nat, b: nat, g: Grid<KVRecord>)
    requires Shaped(l, n) && b < |l| && Wide(g, n) && Tight(g)
    ensures Shaped(l[b := g], n)
  {
  }

  ghost predicate Fits(l: Layout, n: nat, s: int, k: int, key: u64) {
    |l| > 0 && 0 <= s < n && 0 <= k < |Project(l[Bucket(key, |l|)], s)|
  }

  ghost predicate FitsNew(l: Layout, n: nat, s: int, k: int, key: u64) {
    |l| > 0 && 0 <= s < n && 0 <= k <= |Project(l[Bucket(key, |l|)], s)|
  }

  // ----- the three updates

  ghost function Inserted(l: Layout, n: nat, s: nat, k: nat, r: KVRecord): Layout
    requires Shaped(l, n) && FitsNew(l, n, s, k, r.key)
  {
    var b := Bucket(r.key, |l|);
    l[b := Insert(l[b], n, s, k, r)]
  }

  ghost function Deleted(l: Layout, n: nat, s: nat, k: nat, key: u64): Layout
    requires Shaped(l, n) && Fits(l, n, s, k, key)
  {
    var b := Bucket(key, |l|);
    l[b := Delete(l[b], n, s, k)]
  }

  /** The same when the caller names the record. */
  ghost function DeletedAs(l: Layout, n: nat, s: nat, k: nat, r: KVRecord): Layout
    requires Shaped(l, n) && Fits(l, n, s, k, r.key)
  {
    var b := Bucket(r.key, |l|);
    l[b := DeleteAs(RECORD_OPS, l[b], n, s, k, r)]
  }

  /** The k-th record of source s in the key's bucket gets value ^ oldValue ^ newValue. */
  ghost function Replaced(l: Layout, n: nat, s: nat, k: nat, key: u64, oldValue: u64, newValue: u64): Layout
    requires Shaped(l, n) && Fits(l, n, s, k, key)
  {
    var b := Bucket(key, |l|);
    var i := NodeOf(l[b], s, k);
    var delta := KVRecord(0, Xor64(oldValue, newValue));
    l[b := l[b][i := l[b][i][s := Some(Xor(RECORD_OPS, Project(l[b], s)[k], delta))]]]
  }

  /** Not a node more or less, and no bit set or cleared. */
  ghost predicate SameNodes(l: Layout, h: Layout) {
    && |l| == |h|
    && forall b :: 0 <= b < |l| ==>
         |l[b]| == |h[b]| && forall i :: 0 <= i < |l[b]| ==> Bits(l[b][i]) == Bits(h[b][i])
  }

  /** A new value for a known key moves nothing. */
  lemma ReplacedMovesNothing(l: Layout, n: nat, s: nat, k: nat, key: u64, oldValue: u64, newValue: u64)
    requires Shaped(l, n) && Fits(l, n, s, k, key)
    ensures SameNodes(l, Replaced(l, n, s, k, key, oldValue, newValue))
  {
  }

  // ----- every update keeps the shape, and the size table follows

  function Resized(sizes: seq<seq<int>>, s: nat, b: nat, change: int): seq<seq<int>>
    requires s < |sizes| && b < |sizes[s]|
  {
    sizes[s := sizes[s][b := sizes[s][b] + change]]
  }

  lemma InsertedKeeps(sizes: seq<seq<int>>, l: Layout, n: nat, s: nat, k: nat, r: KVRecord)
    requires Shaped(l, n) && AllCounts(sizes, l, n) && FitsNew(l, n, s, k, r.key)
    ensures |sizes| == n && |sizes[s]| == |l|
    ensures Shaped(Inserted(l, n, s, k, r), n)
    ensures AllCounts(Resized(sizes, s, Bucket(r.key, |l|), 1), Inserted(l, n, s, k, r), n)
  {
    var b := Bucket(r.key, |l|);
    assert Counts(sizes, l, n, b);
    InsertMeaning(l[b], n, s, k, r);
    InsertTight(l[b], n, s, k, r);
    var g := Insert(l[b], n, s, k, r);
    ShapedChange(l, n, b, g);
    CountsChange(sizes, l, n, b, g, s, sizes[s][b] + 1);
  }

  lemma DeletedKeeps(sizes: seq<seq<int>>, l: Layout, n: nat, s: nat, k: nat, r: KVRecord)
    requires Shaped(l, n) && AllCounts(sizes, l, n) && Fits(l, n, s, k, r.key)
    ensures |sizes| == n && |sizes[s]| == |l|
    ensures Shaped(DeletedAs(l, n, s, k, r), n)
    ensures AllCounts(Resized(sizes, s, Bucket(r.key, |l|), -1), DeletedAs(l, n, s, k, r), n)
  {
    var b := Bucket(r.key, |l|);
    assert Counts(sizes, l, n, b);
    var g := DeleteAs(RECORD_OPS, l[b], n, s, k, r);
    DeleteAsSizes(l[b], n, s, k, r);
    ShapedChange(l, n, b, g);
    CountsChange(sizes, l, n, b, g, s, sizes[s][b] - 1);
  }

  lemma DeleteAsSizes(g: Grid<KVRecord>, n: nat, s: nat, k: nat, r: KVRecord)
    requires Wide(g, n) && Tight(g) && s < n && k < |Project(g, s)|
    ensures var h := DeleteAs(RECORD_OPS, g, n, s, k, r);
            && Wide(h, n) && Tight(h) && |Project(h, s)| == |Project(g, s)| - 1
            && forall t: nat :: t != s ==> |Project(h, t)| == |Project(g, t)|
  {
    DeleteAsMeaning(RECORD_OPS, g, n, s, k, r);
  }

  lemma ReplacedKeeps(sizes: seq<seq<int>>, l: Layout, n: nat, s: nat, k: nat, key: u64, oldValue: u64, newValue: u64)
    requires Shaped(l, n) && AllCounts(sizes, l, n) && Fits(l, n, s, k, key)
    ensures Shaped(Replaced(l, n, s, k, key, oldValue, newValue), n)
    ensures AllCounts(sizes, Replaced(l, n, s, k, key, oldValue, newValue), n)
  {
    var b := Bucket(key, |l|);
    assert Counts(sizes, l, n, b);
    var x := Xor(RECORD_OPS, Project(l[b], s)[k], KVRecord(0, Xor64(oldValue, newValue)));
    RenewMeaning(l[b], n, s, k, x);
    var i := NodeOf(l[b], s, k);
    var g := l[b][i := l[b][i][s := Some(x)]];
    ShapedChange(l, n, b, g);
    CountsChange(sizes, l, n, b, g, s, sizes[s][b]);
    assert sizes[s][b := sizes[s][b]] == sizes[s];
    assert sizes[s := sizes[s]] == sizes;
  }

  // ----- each update, at the rank of its key, follows the tables

  lemma StepOneBucket(l: Layout, tables: seq<Table>, s: nat, b: nat, g: Grid<KVRecord>, m: Table)
    requires Fuses(l, tables) && s < |tables| && b < |l|
    requires Wide(g, |tables|) && Tight(g)
    requires Project(g, s) == Listing(InBucket(m, b, |l|))
    requires forall t: nat :: t != s ==> Project(g, t) == Project(l[b], t)
    requires forall c :: 0 <= c < |l| && c != b ==> InBucket(m, c, |l|) == InBucket(tables[s], c, |l|)
    ensures Fuses(l[b := g], tables[s := m])
  {
    var l', tables' := l[b := g], tables[s := m];
    forall c, t | 0 <= c < |l| && 0 <= t < |tables| ensures InStep(l', tables', c, t) {
      StepOf(l, tables, c, t);
    }
    StepByStep(l', tables');
  }

  lemma PutNew(l: Layout, tables: seq<Table>, s: nat, k: nat, key: u64, value: u64)
    requires Fuses(l, tables) && s < |tables| && key !in tables[s]
    requires IsRank(Project(l[Bucket(key, |l|)], s), key, k)
    ensures Fuses(Inserted(l, |tables|, s, k, KVRecord(key, value)), tables[s := With(tables[s], key, value)])
  {
    var b := Bucket(key, |l|);
    StepOf(l, tables, b, s);
    var m := With(tables[s], key, value);
    ListingPut(InBucket(tables[s], b, |l|), key, value, k);
    InBucketPut(tables[s], key, value, b, |l|);
    InsertMeaning(l[b], |tables|, s, k, KVRecord(key, value));
    InsertTight(l[b], |tables|, s, k, KVRecord(key, value));
    forall c | 0 <= c < |l| && c != b ensures InBucket(m, c, |l|) == InBucket(tables[s], c, |l|) {
      InBucketPut(tables[s], key, value, c, |l|);
    }
    StepOneBucket(l, tables, s, b, Insert(l[b], |tables|, s, k, KVRecord(key, value)), m);
  }

  lemma ExchangeValue(r: KVRecord, newValue: u64)
    ensures Xor(RECORD_OPS, r, KVRecord(0, Xor64(r.value, newValue))) == KVRecord(r.key, newValue)
  {
    XorDigitsZero(r.key);
    XorDigitsZero(r.value);
    XorDigitsZero(newValue);
    XorDigitsSymmetric(0, newValue);
    XorDigitsAssociative(r.value, r.value, newValue);
  }

  lemma PutOld(l: Layout, tables: seq<Table>, s: nat, k: nat, key: u64, value: u64)
    requires Fuses(l, tables) && s < |tables| && key in tables[s]
    requires IsRank(Project(l[Bucket(key, |l|)], s), key, k)
    ensures k < |Project(l[Bucket(key, |l|)], s)|
    ensures Fuses(Replaced(l, |tables|, s, k, key, tables[s][key], value), tables[s := With(tables[s], key, value)])
  {
    var b := Bucket(key, |l|);
    StepOf(l, tables, b, s);
    var m := With(tables[s], key, value);
    ListingPut(InBucket(tables[s], b, |l|), key, value, k);
    InBucketPut(tables[s], key, value, b, |l|);
    ExchangeValue(KVRecord(key, tables[s][key]), value);
    RenewMeaning(l[b], |tables|, s, k, KVRecord(key, value));
    forall c | 0 <= c < |l| && c != b ensures InBucket(m, c, |l|) == InBucket(tables[s], c, |l|) {
      InBucketPut(tables[s], key, value, c, |l|);
    }
    var i := NodeOf(l[b], s, k);
    StepOneBucket(l, tables, s, b, l[b][i := l[b][i][s := Some(KVRecord(key, value))]], m);
  }

  lemma Remove(l: Layout, tables: seq<Table>, s: nat, k: nat, key: u64)
    requires Fuses(l, tables) && s < |tables| && key in tables[s]
    requires IsRank(Project(l[Bucket(key, |l|)], s), key, k)
    ensures k < |Project(l[Bucket(key, |l|)], s)|
    ensures Project(l[Bucket(key, |l|)], s)[k] == KVRecord(key, tables[s][key])
    ensures Fuses(Deleted(l, |tables|, s, k, key), tables[s := WithoutKey(tables[s], key)])
  {
    var b := Bucket(key, |l|);
    StepOf(l, tables, b, s);
    var m := WithoutKey(tables[s], key);
    ListingRemove(InBucket(tables[s], b, |l|), key, k);
    InBucketPut(tables[s], key, 0, b, |l|);
    DeleteMeaning(l[b], |tables|, s, k);
    DeleteTight(l[b], |tables|, s, k);
    forall c | 0 <= c < |l| && c != b ensures InBucket(m, c, |l|) == InBucket(tables[s], c, |l|) {
      InBucketPut(tables[s], key, 0, c, |l|);
    }
    StepOneBucket(l, tables, s, b, Delete(l[b], |tables|, s, k), m);
  }

  // ----- recovery

  ghost predicate SizesFit(l: Layout, s: nat, records: seq<KVRecord>) {
    forall b :: 0 <= b < |l| ==> |Group(records, b, |l|)| == |Project(l[b], s)|
  }

  /** groups is the survivor's records, bucket by bucket, each sorted by key. */
  ghost predicate Grouped(l: Layout, s: nat, records: seq<KVRecord>, groups: seq<seq<KVRecord>>) {
    && SizesFit(l, s, records)
    && |groups| == |l|
    && forall b :: 0 <= b < |l| ==>
         SortedByKey(groups[b]) && multiset(groups[b]) == multiset(Group(records, b, |l|))
  }

  /** What Recover checks before it uses the survivors. */
  ghost predicate Accepts(l: Layout, n: nat, missing: int, survivors: map<int, seq<KVRecord>>) {
    && 0 <= missing < n
    && |survivors| == n - 1
    && forall s :: s in survivors ==> 0 <= s < n && s != missing && SizesFit(l, s, survivors[s])
  }

  /** The layout fuses the tables, and each survivor brings its own one, in any order. */
  ghost predicate Truthful(l: Layout, tables: seq<Table>, survivors: map<int, seq<KVRecord>>) {
    && Fuses(l, tables)
    && forall s :: s in survivors && 0 <= s < |tables| ==> multiset(survivors[s]) == multiset(Listing(tables[s]))
  }

  ghost predicate MatchesIn(l: Layout, s: nat, groups: seq<seq<KVRecord>>, b: nat) {
    b < |groups| && b < |l| && groups[b] == Project(l[b], s)
  }

  ghost predicate MatchesColumn(l: Layout, s: nat, groups: seq<seq<KVRecord>>) {
    |groups| == |l| && forall b :: 0 <= b < |l| ==> MatchesIn(l, s, groups, b)
  }

  ghost predicate SizedAs(l: Layout, s: nat, groups: seq<seq<KVRecord>>) {
    |groups| == |l| && forall b :: 0 <= b < |l| ==> |groups[b]| == |Project(l[b], s)|
  }

  lemma GroupedSized(l: Layout, s: nat, records: seq<KVRecord>, groups: seq<seq<KVRecord>>)
    requires Grouped(l, s, records, groups)
    ensures SizedAs(l, s, groups)
  {
    forall b | 0 <= b < |l| ensures |groups[b]| == |Project(l[b], s)| {
      assert |multiset(groups[b])| == |multiset(Group(records, b, |l|))|;
    }
  }

  lemma GroupedMatches(l: Layout, tables: seq<Table>, s: nat, records: seq<KVRecord>, groups: seq<seq<KVRecord>>)
    requires Fuses(l, tables) && s < |tables| && multiset(records) == multiset(Listing(tables[s]))
    requires Grouped(l, s, records, groups)
    ensures MatchesColumn(l, s, groups)
  {
    forall b | 0 <= b < |l| ensures MatchesIn(l, s, groups, b) {
      StepOf(l, tables, b, s);
      GroupMatches(records, tables[s], b, |l|);
      SortedIsListing(groups[b], InBucket(tables[s], b, |l|));
    }
  }

  lemma AllMatch(l: Layout, tables: seq<Table>, survivors: map<int, seq<KVRecord>>,
                 grouped: map<int, seq<seq<KVRecord>>>)
    requires Truthful(l, tables, survivors) && grouped.Keys == survivors.Keys
    requires forall s :: s in grouped ==> 0 <= s < |tables| && Grouped(l, s, survivors[s], grouped[s])
    ensures forall s :: s in grouped ==> MatchesColumn(l, s, grouped[s])
  {
    forall s | s in grouped ensures MatchesColumn(l, s, grouped[s]) {
      GroupedMatches(l, tables, s, survivors[s], grouped[s]);
    }
  }

  lemma TruthfulFits(l: Layout, tables: seq<Table>, s: nat, records: seq<KVRecord>)
    requires Fuses(l, tables) && s < |tables| && multiset(records) == multiset(Listing(tables[s]))
    ensures SizesFit(l, s, records)
  {
    forall b | 0 <= b < |l| ensures |Group(records, b, |l|)| == |Project(l[b], s)| {
      StepOf(l, tables, b, s);
      GroupMatches(records, tables[s], b, |l|);
    }
  }

  /** Layouts may differ, say one grown by Put and Delete and one rebuilt at opening:
      as long as they fuse the same tables they accept the same survivors. */
  lemma AcceptAlike(l: Layout, other: Layout, tables: seq<Table>, missing: int, survivors: map<int, seq<KVRecord>>)
    requires Fuses(l, tables) && Fuses(other, tables) && |l| == |other|
    ensures Accepts(l, |tables|, missing, survivors) <==> Accepts(other, |tables|, missing, survivors)
  {
    forall s, b | 0 <= s < |tables| && 0 <= b < |l| ensures Project(l[b], s) == Project(other[b], s) {
      StepOf(l, tables, b, s);
      StepOf(other, tables, b, s);
    }
    forall s | s in survivors && 0 <= s < |tables|
      ensures SizesFit(l, s, survivors[s]) <==> SizesFit(other, s, survivors[s])
    {
    }
  }

  /** The buckets of one source, put together and sorted, are its table. */
  lemma ColumnIsTable(l: Layout, tables: seq<Table>, s: nat, groups: seq<seq<KVRecord>>, sorted: seq<KVRecord>)
    requires Fuses(l, tables) && s < |tables| && MatchesColumn(l, s, groups)
    requires SortedByKey(sorted) && multiset(sorted) == multiset(Flatten(groups))
    ensures sorted == Listing(tables[s])
  {
    forall b | 0 <= b < |l| ensures groups[b] == Listing(InBucket(tables[s], b, |l|)) {
      StepOf(l, tables, b, s);
      assert MatchesIn(l, s, groups, b);
    }
    ChainOfListings(groups, tables[s], |l|, |l|);
    ChainPermutes(Listing(tables[s]), |l|);
    SortedIsListing(sorted, tables[s]);
  }

  // ----- Put and Delete of the database

  /** Insert for a new key, Replace for a known one. */
  ghost function Put(l: Layout, tables: seq<Table>, s: nat, k: nat, key: u64, value: u64): Layout
    requires Shaped(l, |tables|) && s < |tables| && FitsNew(l, |tables|, s, k, key)
    requires key in tables[s] ==> Fits(l, |tables|, s, k, key)
  {
    if key in tables[s] then Replaced(l, |tables|, s, k, key, tables[s][key], value)
    else Inserted(l, |tables|, s, k, KVRecord(key, value))
  }

  /** At the rank of its key a Put never fails, and the table fuses the new contents. */
  lemma PutFuses(l: Layout, tables: seq<Table>, s: nat, k: nat, key: u64, value: u64)
    requires Fuses(l, tables) && s < |tables|
    requires IsRank(Listing(InBucket(tables[s], Bucket(key, |l|), |l|)), key, k)
    ensures FitsNew(l, |tables|, s, k, key) && (key in tables[s] ==> Fits(l, |tables|, s, k, key))
    ensures Fuses(Put(l, tables, s, k, key, value), tables[s := With(tables[s], key, value)])
  {
    StepOf(l, tables, Bucket(key, |l|), s);
    if key in tables[s] {
      PutOld(l, tables, s, k, key, value);
    } else {
      PutNew(l, tables, s, k, key, value);
    }
  }

  lemma DeleteFuses(l: Layout, tables: seq<Table>, s: nat, k: nat, key: u64)
    requires Fuses(l, tables) && s < |tables| && key in tables[s]
    requires IsRank(Listing(InBucket(tables[s], Bucket(key, |l|), |l|)), key, k)
    ensures Fits(l, |tables|, s, k, key)
    ensures Project(l[Bucket(key, |l|)], s)[k] == KVRecord(key, tables[s][key])
    ensures Fuses(DeletedAs(l, |tables|, s, k, KVRecord(key, tables[s][key])), tables[s := WithoutKey(tables[s], key)])
  {
    StepOf(l, tables, Bucket(key, |l|), s);
    Remove(l, tables, s, k, key);
    RecordOpsLawful();
    DeleteAsStored(RECORD_OPS, l[Bucket(key, |l|)], |tables|, s, k);
  }

  // ----- building a layout from tables, one insertion at the end of its bucket after another

  /** Complete for the sources before s; source s has the records in done; later ones have none. */
  ghost predicate Building(l: Layout, tables: seq<Table>, s: nat, done: seq<KVRecord>) {
    |l| > 0 && Shaped(l, |tables|) && Held(l, |tables|) == Half(|l|, tables, s, done)
  }

  ghost function Half(count: nat, tables: seq<Table>, s: nat, done: seq<KVRecord>): seq<seq<seq<KVRecord>>>
    requires count > 0
  {
    seq(count, b requires b >= 0 =>
      seq(|tables|, t requires 0 <= t < |tables| => HalfIn(count, tables, s, done, b, t)))
  }

  ghost function HalfIn(count: nat, tables: seq<Table>, s: nat, done: seq<KVRecord>, b: nat, t: nat): seq<KVRecord>
    requires count > 0 && t < |tables|
  {
    if t < s then Listing(InBucket(tables[t], b, count)) else if t == s then Group(done, b, count) else []
  }

  ghost predicate BuiltIn(l: Layout, tables: seq<Table>, s: nat, done: seq<KVRecord>, b: nat, t: nat)
    requires b < |l| && t < |tables|
  {
    Project(l[b], t) == HalfIn(|l|, tables, s, done, b, t)
  }

  lemma BuiltAt(l: Layout, tables: seq<Table>, s: nat, done: seq<KVRecord>, b: nat, t: nat)
    requires Building(l, tables, s, done) && b < |l| && t < |tables|
    ensures BuiltIn(l, tables, s, done, b, t)
  {
    assert Held(l, |tables|)[b][t] == Half(|l|, tables, s, done)[b][t];
  }

  lemma BuiltAll(l: Layout, tables: seq<Table>, s: nat, done: seq<KVRecord>)
    requires |l| > 0 && Shaped(l, |tables|)
    requires forall b, t :: 0 <= b < |l| && 0 <= t < |tables| ==> BuiltIn(l, tables, s, done, b, t)
    ensures Building(l, tables, s, done)
  {
    var held, half := Held(l, |tables|), Half(|l|, tables, s, done);
    forall b, t | 0 <= b < |l| && 0 <= t < |tables| ensures held[b][t] == half[b][t] {
      assert BuiltIn(l, tables, s, done, b, t);
    }
    SameCube(held, half, |l|, |tables|);
  }

  lemma BuildStart(count: nat, tables: seq<Table>)
    requires count > 0
    ensures Building(seq(count, _ => []), tables, 0, [])
  {
    BuiltAll(seq(count, _ => []), tables, 0, []);
  }

  lemma EmptyFuses(count: nat, n: nat)
    requires count > 0
    ensures Fuses(seq(count, _ => []), seq(n, _ => map[]))
  {
    var l: Layout, tables: seq<Table> := seq(count, _ => []), seq(n, _ => map[]);
    forall b, s | 0 <= b < count && 0 <= s < n ensures InStep(l, tables, b, s) {
      assert InBucket(map[], b, count) == map[];
    }
    StepByStep(l, tables);
  }

  lemma BuildStep(l: Layout, tables: seq<Table>, s: nat, done: seq<KVRecord>, r: KVRecord)
    requires Building(l, tables, s, done) && s < |tables|
    ensures var k := |Group(done, Bucket(r.key, |l|), |l|)|;
            && FitsNew(l, |tables|, s, k, r.key)
            && Building(Inserted(l, |tables|, s, k, r), tables, s, done + [r])
  {
    var b, n := Bucket(r.key, |l|), |tables|;
    var k := |Group(done, b, |l|)|;
    BuiltAt(l, tables, s, done, b, s);
    var l' := Inserted(l, n, s, k, r);
    InsertMeaning(l[b], n, s, k, r);
    InsertTight(l[b], n, s, k, r);
    ShapedChange(l, n, b, l'[b]);
    forall c, t | 0 <= c < |l| && 0 <= t < n ensures BuiltIn(l', tables, s, done + [r], c, t) {
      BuildCell(l, tables, s, done, r, c, t);
    }
    BuiltAll(l', tables, s, done + [r]);
  }

  lemma BuildCell(l: Layout, tables: seq<Table>, s: nat, done: seq<KVRecord>, r: KVRecord, c: nat, t: nat)
    requires Building(l, tables, s, done) && s < |tables| && c < |l| && t < |tables|
    requires FitsNew(l, |tables|, s, |Group(done, Bucket(r.key, |l|), |l|)|, r.key)
    ensures BuiltIn(Inserted(l, |tables|, s, |Group(done, Bucket(r.key, |l|), |l|)|, r), tables, s, done + [r], c, t)
  {
    var b := Bucket(r.key, |l|);
    var k := |Group(done, b, |l|)|;
    BuiltAt(l, tables, s, done, c, t);
    GroupStep(done, r, c, |l|);
    if c == b {
      BuiltAt(l, tables, s, done, b, s);
      InsertMeaning(l[b], |tables|, s, k, r);
      assert t == s ==> Project(l[b], s)[..k] == Project(l[b], s) && Project(l[b], s)[k..] == [];
    }
  }

  lemma GroupStep(done: seq<KVRecord>, r: KVRecord, b: nat, count: nat)
    requires count > 0
    ensures Group(done + [r], b, count) == Group(done, b, count) + if Bucket(r.key, count) == b then [r] else []
  {
    assert (done + [r])[..|done|] == done;
  }

  /** A source whose records have all been inserted, bucket by bucket in key order, is complete. */
  lemma BuildNext(l: Layout, tables: seq<Table>, s: nat)
    requires s < |tables| && |l| > 0 && Building(l, tables, s, Chain(Listing(tables[s]), |l|, |l|))
    ensures Building(l, tables, s + 1, [])
  {
    var done, later := Chain(Listing(tables[s]), |l|, |l|), s + 1;
    forall c, t | 0 <= c < |l| && 0 <= t < |tables| ensures BuiltIn(l, tables, later, [], c, t) {
      BuiltAt(l, tables, s, done, c, t);
      GroupOfChain(Listing(tables[s]), |l|, c, |l|);
      GroupOfListing(tables[s], c, |l|);
    }
    BuiltAll(l, tables, later, []);
  }

  lemma BuildDone(l: Layout, tables: seq<Table>)
    requires Building(l, tables, |tables|, [])
    ensures Fuses(l, tables)
  {
    forall b, t | 0 <= b < |l| && 0 <= t < |tables| ensures InStep(l, tables, b, t) {
      BuiltAt(l, tables, |tables|, [], b, t);
    }
    StepByStep(l, tables);
  }
}
