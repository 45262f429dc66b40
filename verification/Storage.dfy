/** How much room the fused backup takes: as little as can be after opening, and
    sometimes more than a full copy of the records would. */
module Storage {
  import opened Words
  import opened Grids
  import opened Tables
  import opened KVLayouts
  import opened Space

  const BUCKETS: nat := 16

  /** A full copy of the records. */
  function ReplicaBytes(l: Layout, n: nat): nat {
    16 * AllRecords(l, n)
  }

  lemma Scaled(a: int, b: int, c: nat)
    requires a <= b
    ensures a * c <= b * c
  {
  }

  // ----- lists in which every source starts at the first node

  /** Source t has a record in each of the first nodes, and in no later one. */
  ghost predicate Leading<T>(g: Grid<T>, t: nat) {
    forall i :: 0 <= i < |g| ==> (At(g[i], t).Some? <==> i < |Project(g, t)|)
  }

  ghost predicate LeftAligned<T>(g: Grid<T>, n: nat) {
    forall t :: 0 <= t < n ==> Leading(g, t)
  }

  lemma {:induction false} FullSource<T>(g: Grid<T>, t: nat)
    requires forall i :: 0 <= i < |g| ==> At(g[i], t).Some?
    ensures |Project(g, t)| == |g|
  {
    if g != [] {
      FullSource(g[..|g| - 1], t);
    }
  }

  lemma CutAtEnd<T>(g: Grid<T>, s: nat)
    requires Leading(g, s)
    ensures |Project(g, s)| <= |g| && Cut(g, s, |Project(g, s)|) == |Project(g, s)|
  {
    var k := |Project(g, s)|;
    SourceFits(g, s);
    FullSource(g[..k], s);
    CutUnique(g, s, k, k);
  }

  /** One more record for a source goes into the first node it does not use yet. */
  lemma InsertAligned<T>(g: Grid<T>, n: nat, s: nat, x: T)
    requires Wide(g, n) && s < n && LeftAligned(g, n)
    ensures LeftAligned(Insert(g, n, s, |Project(g, s)|, x), n)
  {
    var k := |Project(g, s)|;
    var h := Insert(g, n, s, k, x);
    InsertMeaning(g, n, s, k, x);
    InsertAtEnd(g, n, s, x);
    forall t | 0 <= t < n ensures Leading(h, t) {
      assert Leading(g, t) && Leading(g, s);
      SourceFits(g, t);
      forall i | 0 <= i < |h|
        ensures At(h[i], t).Some? == ((i == k && t == s) || (i < |g| && At(g[i], t).Some?))
      {
        AtEndCell(g, n, s, k, x, i, t);
      }
      LeadingKept(g, h, s, t);
    }
  }

  ghost function AtEnd<T>(g: Grid<T>, n: nat, s: nat, k: nat, x: T): Grid<T>
    requires Wide(g, n) && s < n
  {
    if k < |g| then g[k := g[k][s := Some(x)]] else g + [Empty(n)[s := Some(x)]]
  }

  /** The node after the last one that carries the bit is the next in line, or a new one. */
  lemma InsertAtEnd<T>(g: Grid<T>, n: nat, s: nat, x: T)
    requires Wide(g, n) && s < n && Leading(g, s)
    ensures |Project(g, s)| <= |g| && Insert(g, n, s, |Project(g, s)|, x) == AtEnd(g, n, s, |Project(g, s)|, x)
  {
    CutAtEnd(g, s);
  }

  lemma AtEndCell<T>(g: Grid<T>, n: nat, s: nat, k: nat, x: T, i: nat, t: nat)
    requires Wide(g, n) && s < n && t < n && k <= |g| && i < |AtEnd(g, n, s, k, x)|
    ensures At(AtEnd(g, n, s, k, x)[i], t).Some? == ((i == k && t == s) || (i < |g| && At(g[i], t).Some?))
  {
  }

  lemma LeadingKept<T>(g: Grid<T>, h: Grid<T>, s: nat, t: nat)
    requires Leading(g, t) && Leading(g, s) && |Project(g, t)| <= |g| <= |h|
    requires forall i :: 0 <= i < |h| ==>
               At(h[i], t).Some? == ((i == |Project(g, s)| && t == s) || (i < |g| && At(g[i], t).Some?))
    requires |Project(h, t)| == |Project(g, t)| + if t == s then 1 else 0
    ensures Leading(h, t)
  {
  }

  /** The longest of the first k sources. */
  function Longest<T>(g: Grid<T>, k: nat): nat {
    if k == 0 then 0
    else
      var m, x := Longest(g, k - 1), |Project(g, k - 1)|;
      if m < x then x else m
  }

  lemma {:induction false} LongestFits<T>(g: Grid<T>, k: nat)
    ensures Longest(g, k) <= |g|
  {
    if k > 0 {
      LongestFits(g, k - 1);
      SourceFits(g, k - 1);
    }
  }

  lemma {:induction false} NoneLonger<T>(g: Grid<T>, k: nat, t: nat)
    requires t < k
    ensures |Project(g, t)| <= Longest(g, k)
  {
    if t < k - 1 {
      NoneLonger(g, k - 1, t);
    }
  }

  /** A left-aligned list has the nodes of its longest source and no more. */
  lemma AlignedSize<T>(g: Grid<T>, n: nat)
    requires Wide(g, n) && Tight(g) && LeftAligned(g, n)
    ensures |g| == Longest(g, n)
  {
    LongestFits(g, n);
    if g != [] {
      var last := |g| - 1;
      var t :| 0 <= t < n && g[last][t].Some?;
      assert Leading(g, t);
      NoneLonger(g, n, t);
    }
  }

  // ----- layouts

  ghost predicate AllAligned(l: Layout, n: nat) {
    forall b :: 0 <= b < |l| ==> LeftAligned(l[b], n)
  }

  lemma AlignedStep(l: Layout, n: nat, s: nat, k: nat, r: KVRecord)
    requires Shaped(l, n) && FitsNew(l, n, s, k, r.key) && AllAligned(l, n)
    requires k == |Project(l[Bucket(r.key, |l|)], s)|
    ensures AllAligned(Inserted(l, n, s, k, r), n)
  {
    InsertAligned(l[Bucket(r.key, |l|)], n, s, r);
  }

  /** In every bucket, as many nodes as the shard with the most keys there has. */
  ghost predicate Compact(l: Layout, tables: seq<Table>) {
    |l| > 0 && forall b :: 0 <= b < |l| ==> |l[b]| == MostKeys(|l|, tables, b)
  }

  function MostKeys(count: nat, tables: seq<Table>, b: nat): nat
    requires count > 0
  {
    if tables == [] then 0
    else
      var rest, m := tables[..|tables| - 1], tables[|tables| - 1];
      var most, own := MostKeys(count, rest, b), |InBucket(m, b, count).Keys|;
      if most < own then own else most
  }

  lemma {:induction false} MostIsLongest(l: Layout, tables: seq<Table>, b: nat, k: nat)
    requires Fuses(l, tables) && b < |l| && k <= |tables|
    ensures MostKeys(|l|, tables[..k], b) == Longest(l[b], k)
  {
    if k > 0 {
      MostIsLongest(l, tables, b, k - 1);
      assert tables[..k][..k - 1] == tables[..k - 1];
      StepOf(l, tables, b, k - 1);
      ListingSize(InBucket(tables[k - 1], b, |l|));
    }
  }

  lemma AlignedCompact(l: Layout, tables: seq<Table>)
    requires Fuses(l, tables) && AllAligned(l, |tables|)
    ensures Compact(l, tables)
  {
    forall b | 0 <= b < |l| ensures |l[b]| == MostKeys(|l|, tables, b) {
      AlignedSize(l[b], |tables|);
      MostIsLongest(l, tables, b, |tables|);
      assert tables[..|tables|] == tables;
    }
  }

  /** A compact backup has the fewest nodes that any backup of the same tables can
      have, bucket by bucket and in all. */
  lemma CompactIsLeast(l: Layout, tables: seq<Table>, other: Layout)
    requires Compact(l, tables) && Fuses(other, tables) && |other| == |l|
    ensures forall b :: 0 <= b < |l| ==> |l[b]| <= |other[b]|
    ensures Nodes(l) <= Nodes(other) && Bytes(l, |tables|) <= Bytes(other, |tables|)
  {
    forall b | 0 <= b < |l| ensures |l[b]| <= |other[b]| {
      MostIsLongest(other, tables, b, |tables|);
      assert tables[..|tables|] == tables;
      LongestFits(other[b], |tables|);
    }
    FewerNodes(l, other);
    Scaled(Nodes(l), Nodes(other), NodeBytes(|tables|));
  }

  lemma {:induction false} FewerNodes<T>(a: seq<Grid<T>>, b: seq<Grid<T>>)
    requires |a| == |b| && forall i :: 0 <= i < |a| ==> |a[i]| <= |b[i]|
    ensures Nodes(a) <= Nodes(b)
  {
    if a != [] {
      FewerNodes(a[..|a| - 1], b[..|b| - 1]);
    }
  }

  // ----- the records of the layout are the keys of the tables

  lemma {:induction false} FirstRecords(l: Layout, tables: seq<Table>, s: nat, k: nat)
    requires Fuses(l, tables) && s < |tables| && k <= |l|
    ensures SourceRecords(l[..k], s) == |Chain(Listing(tables[s]), k, |l|)|
  {
    if k > 0 {
      FirstRecords(l, tables, s, k - 1);
      assert l[..k][..k - 1] == l[..k - 1];
      StepOf(l, tables, k - 1, s);
      GroupOfListing(tables[s], k - 1, |l|);
    }
  }

  lemma SourceCount(l: Layout, tables: seq<Table>, s: nat)
    requires Fuses(l, tables) && s < |tables|
    ensures SourceRecords(l, s) == |tables[s].Keys|
  {
    FirstRecords(l, tables, s, |l|);
    assert l[..|l|] == l;
    ChainPermutes(Listing(tables[s]), |l|);
    SameSize(Chain(Listing(tables[s]), |l|, |l|), Listing(tables[s]));
    ListingSize(tables[s]);
  }

  lemma KeysOfOneMore(m: Table, k: nat, count: nat)
    requires count > 0
    ensures |FirstBuckets(m, k + 1, count).Keys| == |FirstBuckets(m, k, count).Keys| + |InBucket(m, k, count).Keys|
  {
    FirstBucketsStep(m, k, count);
    var first, own := FirstBuckets(m, k, count), InBucket(m, k, count);
    assert (first + own).Keys == first.Keys + own.Keys;
  }

  /** The shards' tables when the database holds whole. */
  function Split(whole: Table, n: nat): (tables: seq<Table>)
    requires n > 0
    ensures |tables| == n
  {
    seq(n, s requires 0 <= s < n => InBucket(whole, s, n))
  }

  lemma {:induction false} FirstSources(l: Layout, whole: Table, n: nat, k: nat)
    requires n > 0 && Fuses(l, Split(whole, n)) && k <= n
    ensures AllRecords(l, k) == |FirstBuckets(whole, k, n).Keys|
  {
    if k == 0 {
      FirstBucketsStep(whole, 0, n);
    } else {
      FirstSources(l, whole, n, k - 1);
      SourceCount(l, Split(whole, n), k - 1);
      assert Split(whole, n)[k - 1] == InBucket(whole, k - 1, n);
      KeysOfOneMore(whole, k - 1, n);
    }
  }

  /** SourceRecordCount counts the keys of the whole map. */
  lemma RecordsAreKeys(l: Layout, whole: Table, n: nat)
    requires n > 0 && Fuses(l, Split(whole, n))
    ensures AllRecords(l, n) == |whole.Keys|
  {
    FirstSources(l, whole, n, n);
    FirstBucketsStep(whole, 0, n);
  }

  // ----- buckets that only one source uses

  /** Source s alone has records. */
  ghost predicate Alone<T>(g: Grid<T>, n: nat, s: nat) {
    s < n && forall t :: 0 <= t < n && t != s ==> Project(g, t) == []
  }

  lemma AloneSize<T>(g: Grid<T>, n: nat, s: nat)
    requires Wide(g, n) && Tight(g) && Alone(g, n, s)
    ensures |g| == |Project(g, s)| == Records(g, n)
  {
    forall i | 0 <= i < |g| ensures At(g[i], s).Some? {
      var t :| 0 <= t < n && g[i][t].Some?;
      AlignedRecord(g, t, i);
    }
    FullSource(g, s);
    AloneRecords(g, n, s, n);
  }

  lemma {:induction false} AloneRecords<T>(g: Grid<T>, n: nat, s: nat, k: nat)
    requires Alone(g, n, s) && k <= n
    ensures Records(g, k) == if s < k then |Project(g, s)| else 0
  {
    if k > 0 {
      AloneRecords(g, n, s, k - 1);
    }
  }

  lemma {:induction false} NoSharingNodes<T>(l: seq<Grid<T>>, n: nat)
    requires forall b :: 0 <= b < |l| ==> |l[b]| == Records(l[b], n)
    ensures Nodes(l) == AllRecords(l, n)
  {
    if l == [] {
      AllRecordsOfNothing<T>(n);
    } else {
      NoSharingNodes(l[..|l| - 1], n);
      AllRecordsStep(l[..|l| - 1], l[|l| - 1], n);
      assert l[..|l| - 1] + [l[|l| - 1]] == l;
    }
  }

  /** Each key is in the table of its shard. */
  ghost predicate Routed(tables: seq<Table>) {
    |tables| > 0 && forall s, key :: 0 <= s < |tables| && key in tables[s] ==> Bucket(key, |tables|) == s
  }

  lemma OnlyRemainder(x: nat, n: nat, q: nat, r: nat)
    requires n > 0 && x == q * n + r && r < n
    ensures x % n == r
  {
    var p := x / n;
    assert x == p * n + x % n;
    if p < q {
      Scaled(p + 1, q, n);
    } else if q < p {
      Scaled(q + 1, p, n);
    }
  }

  lemma Nested(q: nat, p: nat, n: nat, a: nat)
    ensures q * (p * n) + a * n == (q * p + a) * n
  {
  }

  function Union(tables: seq<Table>): Table {
    if tables == [] then map[] else Union(tables[..|tables| - 1]) + tables[|tables| - 1]
  }

  lemma {:induction false} FirstOfUnion(tables: seq<Table>, k: nat, key: u64)
    requires Routed(tables) && k <= |tables|
    ensures var s := Bucket(key, |tables|);
            && (key in Union(tables[..k]) <==> s < k && key in tables[s])
            && (key in Union(tables[..k]) ==> Union(tables[..k])[key] == tables[s][key])
  {
    if k > 0 {
      FirstOfUnion(tables, k - 1, key);
      assert tables[..k][..k - 1] == tables[..k - 1];
      assert key in tables[k - 1] ==> Bucket(key, |tables|) == k - 1;
    }
  }

  /** Tables whose keys are in their own shards are the parts of one map. */
  lemma RoutedIsSplit(tables: seq<Table>)
    requires Routed(tables)
    ensures tables == Split(Union(tables), |tables|)
  {
    var n, whole := |tables|, Union(tables);
    assert tables[..n] == tables;
    forall s | 0 <= s < n ensures tables[s] == InBucket(whole, s, n) {
      forall key: u64
        ensures key in tables[s] <==> key in InBucket(whole, s, n)
        ensures key in tables[s] ==> tables[s][key] == whole[key]
      {
        FirstOfUnion(tables, n, key);
        assert key in tables[s] ==> Bucket(key, n) == s;
      }
    }
  }

  lemma Divided(x: nat, n: nat)
    requires n > 0
    ensures x == x / n * n + x % n && x % n < n
  {
  }

  /** Keys go round the shards, or the buckets, one by one. */
  lemma BucketCycles(key: u64, n: nat)
    requires n > 0
    ensures Bucket(key, n) < n
    ensures key < n ==> Bucket(key, n) == key
    ensures key + n < LIMIT ==> Bucket(key + n, n) == Bucket(key, n)
  {
    Divided(key, n);
    OnlyRemainder(key + n, n, key / n + 1, key % n);
    if key < n {
      OnlyRemainder(key, n, 0, key);
    }
  }

  lemma SameRemainder(key: nat, count: nat, n: nat)
    requires count > 0 && n > 0 && count % n == 0
    ensures key % count % n == key % n
  {
    var p, q, r := count / n, key / count, key % count;
    Divided(count, n);
    Divided(key, count);
    Divided(r, n);
    Nested(q, p, n, r / n);
    OnlyRemainder(key, n, q * p + r / n, r % n);
  }

  /** With a shard count that divides the bucket count, a bucket has keys of one shard only. */
  lemma OneShardOnly(l: Layout, tables: seq<Table>, b: nat)
    requires Fuses(l, tables) && Routed(tables) && b < |l| && |l| % |tables| == 0
    ensures Alone(l[b], |tables|, b % |tables|)
  {
    var n := |tables|;
    forall t | 0 <= t < n && t != b % n ensures Project(l[b], t) == [] {
      StepOf(l, tables, b, t);
      forall key | key in tables[t] ensures Bucket(key, |l|) != b {
        assert Bucket(key, n) == t;
        SameRemainder(key, |l|, n);
      }
      assert InBucket(tables[t], b, |l|) == map[];
    }
  }

  lemma UnsharedIsLarger(l: Layout, n: nat)
    requires n > 0 && Nodes(l) == AllRecords(l, n)
    ensures Bytes(l, n) >= ReplicaBytes(l, n) + AllRecords(l, n)
  {
    Scaled(17, NodeBytes(n), Nodes(l));
  }

  /** Then no node is ever shared, whatever was put in and deleted, and a backup
      that is not empty is larger than a full copy. */
  lemma NothingShared(l: Layout, tables: seq<Table>)
    requires Fuses(l, tables) && Routed(tables) && |l| % |tables| == 0
    ensures Nodes(l) == AllRecords(l, |tables|)
    ensures Bytes(l, |tables|) >= ReplicaBytes(l, |tables|) + AllRecords(l, |tables|)
  {
    var n := |tables|;
    forall b | 0 <= b < |l| ensures |l[b]| == Records(l[b], n) {
      OneShardOnly(l, tables, b);
      AloneSize(l[b], n, b % n);
    }
    NoSharingNodes(l, n);
    UnsharedIsLarger(l, n);
  }
}
