/** Contents for which sharing pays, and contents for which the order of the Puts
    decides whether it does. */
module Samples {
  import opened Words
  import opened Tables
  import opened KVLayouts
  import opened Space
  import opened Storage
  import opened Savings

  // ----- contents in the first bucket

  ghost predicate OneBucket(whole: Table) {
    forall key :: key in whole ==> Bucket(key, BUCKETS) == 0
  }

  lemma {:induction false} NoKeys(tables: seq<Table>, b: nat)
    requires forall s :: 0 <= s < |tables| ==> InBucket(tables[s], b, BUCKETS) == map[]
    ensures MostKeys(BUCKETS, tables, b) == 0
  {
    if tables != [] {
      NoKeys(tables[..|tables| - 1], b);
    }
  }

  lemma EmptyBucket(whole: Table, n: nat, b: nat)
    requires n > 0 && OneBucket(whole) && b > 0
    ensures MostKeys(BUCKETS, Split(whole, n), b) == 0 && UsedBy(BUCKETS, Split(whole, n), b) == {}
  {
    forall s | 0 <= s < n ensures InBucket(Split(whole, n)[s], b, BUCKETS) == map[] {
      assert forall key :: key in Split(whole, n)[s] ==> key in whole;
    }
    NoKeys(Split(whole, n), b);
  }

  lemma {:induction false} FirstBucketOnly(whole: Table, n: nat, k: nat)
    requires n > 0 && OneBucket(whole) && 0 < k
    ensures MostNodes(BUCKETS, Split(whole, n), k) == MostKeys(BUCKETS, Split(whole, n), 0)
    ensures Doubled(BUCKETS, Split(whole, n), k) == Excess(UsedBy(BUCKETS, Split(whole, n), 0))
  {
    if k > 1 {
      FirstBucketOnly(whole, n, k - 1);
      EmptyBucket(whole, n, k - 1);
    }
  }

  /** Whole shards, then, count. */
  lemma WholeShard(whole: Table, n: nat, s: nat)
    requires n > 0 && OneBucket(whole) && s < n
    ensures InBucket(Split(whole, n)[s], 0, BUCKETS) == InBucket(whole, s, n)
  {
  }

  lemma {:induction false} MostAtMost(tables: seq<Table>, m: nat)
    requires forall s :: 0 <= s < |tables| ==> |InBucket(tables[s], 0, BUCKETS).Keys| <= m
    ensures MostKeys(BUCKETS, tables, 0) <= m
  {
    if tables != [] {
      MostAtMost(tables[..|tables| - 1], m);
    }
  }

  lemma {:induction false} MostAtLeast(tables: seq<Table>, s: nat)
    requires s < |tables|
    ensures |InBucket(tables[s], 0, BUCKETS).Keys| <= MostKeys(BUCKETS, tables, 0)
  {
    if s < |tables| - 1 {
      MostAtLeast(tables[..|tables| - 1], s);
    }
  }

  lemma OneKeyMore(m: Table, key: u64)
    requires key !in m
    ensures |With(m, key, 0).Keys| == |m.Keys| + 1
  {
    assert With(m, key, 0).Keys == m.Keys + {key};
  }

  lemma NewKey(m: Table, key: u64, n: nat, s: nat)
    requires n > 0 && key !in m
    ensures |With(m, key, 0).Keys| == |m.Keys| + 1
    ensures |InBucket(With(m, key, 0), s, n).Keys| == |InBucket(m, s, n).Keys| + if Bucket(key, n) == s then 1 else 0
  {
    InBucketPut(m, key, 0, s, n);
    OneKeyMore(m, key);
    OneKeyMore(InBucket(m, s, n), key);
  }

  // ----- one key for each of several shards

  /** How many of the keys 0, 16, 32, ... belong to different shards, at the least. */
  function OwnShards(n: nat): nat {
    if n < 16 then 2 else (n + 15) / 16
  }

  lemma OwnShard(n: nat, i: nat, j: nat)
    requires n >= 2 && 16 % n != 0 && i < j < OwnShards(n)
    ensures 16 * i % n != 16 * j % n
  {
    if n > 16 {
      OnlyRemainder(16 * i, n, 0, 16 * i);
      OnlyRemainder(16 * j, n, 0, 16 * j);
    }
  }

  function Early(c: nat): Table
    requires 16 * c <= LIMIT
  {
    if c == 0 then map[] else With(Early(c - 1), 16 * (c - 1), 0)
  }

  lemma {:induction false} EarlyKeys(c: nat)
    requires 16 * c <= LIMIT
    ensures OneBucket(Early(c)) && |Early(c).Keys| == c && forall key :: key in Early(c) ==> key < 16 * c
  {
    if c > 0 {
      EarlyKeys(c - 1);
      NewKey(Early(c - 1), 16 * (c - 1), 1, 0);
    }
  }

  /** No shard has two of them. */
  lemma {:induction false} EarlyApart(n: nat, c: nat, s: nat)
    requires n >= 2 && 16 % n != 0 && c <= OwnShards(n) && 16 * c <= LIMIT
    ensures |InBucket(Early(c), s, n).Keys| <= 1
    ensures (forall i :: 0 <= i < c ==> 16 * i % n != s) ==> |InBucket(Early(c), s, n).Keys| == 0
  {
    if c > 0 {
      EarlyApart(n, c - 1, s);
      EarlyKeys(c - 1);
      NewKey(Early(c - 1), 16 * (c - 1), n, s);
      if 16 * (c - 1) % n == s {
        forall i | 0 <= i < c - 1 ensures 16 * i % n != s {
          OwnShard(n, i, c - 1);
        }
      }
    }
  }

  lemma OneNodeIsSmaller(n: nat)
    requires n >= 2 && 16 % n != 0
    ensures NodeBytes(n) < 16 * OwnShards(n)
  {
    assert n != 16;
  }

  /** They fit into one node. */
  lemma EarlySaves(n: nat)
    requires n >= 2 && 16 % n != 0 && 16 * OwnShards(n) <= LIMIT
    ensures FewestBytes(Early(OwnShards(n)), n) < CopyBytes(Early(OwnShards(n)))
  {
    var whole := Early(OwnShards(n));
    EarlyKeys(OwnShards(n));
    FirstBucketOnly(whole, n, BUCKETS);
    forall s | 0 <= s < n ensures |InBucket(Split(whole, n)[s], 0, BUCKETS).Keys| <= 1 {
      WholeShard(whole, n, s);
      EarlyApart(n, OwnShards(n), s);
    }
    MostAtMost(Split(whole, n), 1);
    OneNodeIsSmaller(n);
    Scaled(FewestNodes(whole, n), 1, NodeBytes(n));
  }

  lemma SplitRouted(whole: Table, n: nat)
    requires n > 0
    ensures Routed(Split(whole, n))
  {
  }

  /** There are contents and a backup of them smaller than a copy just when the number
      of shards does not divide the number of buckets. */
  lemma SavesExactly(n: nat)
    requires 2 <= n && n + 32 <= LIMIT
    ensures (exists whole, l :: Backs(l, whole, n) && Bytes(l, n) < CopyBytes(whole)) <==> BUCKETS % n != 0
  {
    if BUCKETS % n != 0 {
      var whole := Early(OwnShards(n));
      EarlySaves(n);
      CanSave(whole, n);
    } else {
      forall whole, l | Backs(l, whole, n) ensures Bytes(l, n) >= CopyBytes(whole) {
        SplitRouted(whole, n);
        NothingShared(l, Split(whole, n));
        RecordsAreKeys(l, whole, n);
      }
    }
  }

  // ----- two shards with many keys in one bucket

  /** The j-th key from start on that has the bucket and the shard of start. */
  function KeyOf(n: nat, start: nat, j: nat): nat {
    if j == 0 then start else KeyOf(n, start, j - 1) + 16 * n
  }

  lemma SameTurn(x: nat, n: nat, turns: nat)
    requires n > 0
    ensures (x + turns * n) % n == x % n
  {
    Divided(x, n);
    Nested(1, turns, n, x / n);
    OnlyRemainder(x + turns * n, n, x / n + turns, x % n);
  }

  lemma {:induction false} KeyPlace(n: nat, start: nat, j: nat)
    requires n > 0
    ensures KeyOf(n, start, j) % 16 == start % 16 && KeyOf(n, start, j) % n == start % n
    ensures KeyOf(n, start, j) == start + KeyOf(n, 0, j)
  {
    if j > 0 {
      KeyPlace(n, start, j - 1);
      SameTurn(KeyOf(n, start, j - 1), 16, n);
      SameTurn(KeyOf(n, start, j - 1), n, 16);
    }
  }

  /** m keys of shard 0 and m keys of shard 16 % n. */
  function Pairs(n: nat, m: nat): Table
    requires n >= 2 && KeyOf(n, 0, m) <= LIMIT
  {
    if m == 0 then map[]
    else
      KeyPlace(n, 16, m - 1);
      With(With(Pairs(n, m - 1), KeyOf(n, 0, m - 1), 0), KeyOf(n, 16, m - 1), 0)
  }

  lemma {:induction false} PairKeys(n: nat, m: nat)
    requires n >= 2 && KeyOf(n, 0, m) <= LIMIT
    ensures OneBucket(Pairs(n, m)) && forall key :: key in Pairs(n, m) ==> key < KeyOf(n, 0, m)
  {
    if m > 0 {
      PairKeys(n, m - 1);
      KeyPlace(n, 0, m - 1);
      KeyPlace(n, 16, m - 1);
    }
  }

  lemma NextPair(n: nat, m: nat)
    requires n >= 2 && m > 0 && KeyOf(n, 0, m) <= LIMIT
    ensures var first, second := KeyOf(n, 0, m - 1), KeyOf(n, 16, m - 1);
            && first < second < LIMIT && first !in Pairs(n, m - 1) && second !in Pairs(n, m - 1)
            && Bucket(first, n) == 0 && Bucket(second, n) == 16 % n
            && Pairs(n, m) == With(With(Pairs(n, m - 1), first, 0), second, 0)
  {
    PairKeys(n, m - 1);
    KeyPlace(n, 0, m - 1);
    KeyPlace(n, 16, m - 1);
  }

  lemma {:induction false} PairSizes(n: nat, m: nat, s: nat)
    requires n >= 2 && 16 % n != 0 && KeyOf(n, 0, m) <= LIMIT && s < n
    ensures |Pairs(n, m).Keys| == 2 * m
    ensures |InBucket(Pairs(n, m), s, n).Keys| == if s == 0 || s == 16 % n then m else 0
  {
    if m > 0 {
      PairSizes(n, m - 1, s);
      NextPair(n, m);
      var before, first, second := Pairs(n, m - 1), KeyOf(n, 0, m - 1), KeyOf(n, 16, m - 1);
      NewKey(before, first, n, s);
      NewKey(With(before, first, 0), second, n, s);
    }
  }

  lemma PairCounts(n: nat, m: nat)
    requires n >= 2 && 16 % n != 0 && m > 0 && KeyOf(n, 0, m) <= LIMIT
    ensures |Pairs(n, m).Keys| == 2 * m && FewestNodes(Pairs(n, m), n) == m && SurplusNodes(Pairs(n, m), n) == 1
  {
    var whole, t := Pairs(n, m), 16 % n;
    var tables := Split(whole, n);
    PairKeys(n, m);
    FirstBucketOnly(whole, n, BUCKETS);
    forall s | 0 <= s < n
      ensures |whole.Keys| == 2 * m && |InBucket(tables[s], 0, BUCKETS).Keys| == if s == 0 || s == t then m else 0
    {
      WholeShard(whole, n, s);
      PairSizes(n, m, s);
    }
    MostAtMost(tables, m);
    MostAtLeast(tables, 0);
    UsedPair(tables, t, m);
  }

  lemma UsedPair(tables: seq<Table>, t: nat, m: nat)
    requires 0 < t < |tables| && m > 0
    requires forall s :: 0 <= s < |tables| ==>
               |InBucket(tables[s], 0, BUCKETS).Keys| == if s == 0 || s == t then m else 0
    ensures Excess(UsedBy(BUCKETS, tables, 0)) == 1
  {
    forall s: nat | s < |tables| ensures InBucket(tables[s], 0, BUCKETS) != map[] <==> s == 0 || s == t {
      assert |InBucket(tables[s], 0, BUCKETS).Keys| == if s == 0 || s == t then m else 0;
    }
    assert UsedBy(BUCKETS, tables, 0) == {0, t};
  }

  lemma LargerThanCopy(l: Layout, n: nat, m: nat)
    requires n > 0 && m >= 9 && Nodes(l) == 2 * m - 1
    ensures Bytes(l, n) > 32 * m
  {
    Scaled(17, NodeBytes(n), Nodes(l));
  }

  lemma SmallerThanCopy(l: Layout, n: nat, m: nat)
    requires n <= 120 && m > 0 && Nodes(l) == m
    ensures Bytes(l, n) < 32 * m
  {
    Scaled(NodeBytes(n), 31, Nodes(l));
  }

  /** With any shard count that does not divide 16 there are contents of 2m keys whose Puts can
      end in m nodes or in 2m - 1: from 18 keys on more than a copy takes, or less up to 120 shards. */
  lemma OrderDecides(n: nat, m: nat)
    requires n >= 2 && BUCKETS % n != 0 && m > 0 && KeyOf(n, 0, m) <= LIMIT
    ensures var whole := Pairs(n, m);
            && |whole.Keys| == 2 * m
            && LeadsTo(Listing(whole), Rising(whole, n), whole, n)
            && LeadsTo(Downwards(whole, n), Falling(whole, n), whole, n)
            && Nodes(Rising(whole, n).layout) == m && Nodes(Falling(whole, n).layout) == 2 * m - 1
            && (m >= 9 ==> Bytes(Falling(whole, n).layout, n) > CopyBytes(whole))
            && (n <= 120 ==> Bytes(Rising(whole, n).layout, n) < CopyBytes(whole))
  {
    PairCounts(n, m);
    FewestReached(Pairs(n, m), n);
    MostReached(Pairs(n, m), n);
    if m >= 9 {
      LargerThanCopy(Falling(Pairs(n, m), n).layout, n, m);
    }
    if n <= 120 {
      SmallerThanCopy(Rising(Pairs(n, m), n).layout, n, m);
    }
  }
}
