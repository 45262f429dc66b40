/** When the fused backup takes fewer bytes than a full copy of the records: for
    any contents, how few and how many nodes it can come to, which Puts lead there,
    and what that means for every backup, for some backup and for a rebuilt one. */
module Savings {
  import opened Words
  import opened Grids
  import opened Tables
  import opened KVLayouts
  import opened Space
  import opened Storage
  import opened Growth

  // ----- counts that can be read off the contents

  /** The shards with keys in the bucket. */
  function UsedBy(count: nat, tables: seq<Table>, b: nat): set<nat>
    requires count > 0
  {
    set s: nat | s < |tables| && InBucket(tables[s], b, count) != map[]
  }

  /** Over the first k buckets: the keys of the shard that has most of them there. */
  function MostNodes(count: nat, tables: seq<Table>, k: nat): nat
    requires count > 0
  {
    if k == 0 then 0 else MostNodes(count, tables, k - 1) + MostKeys(count, tables, k - 1)
  }

  /** Over the first k buckets: the shards in use there after the first one. */
  function Doubled(count: nat, tables: seq<Table>, k: nat): nat
    requires count > 0
  {
    if k == 0 then 0 else Doubled(count, tables, k - 1) + Excess(UsedBy(count, tables, k - 1))
  }

  function FewestNodes(whole: Table, n: nat): nat
    requires n > 0
  {
    MostNodes(BUCKETS, Split(whole, n), BUCKETS)
  }

  function SurplusNodes(whole: Table, n: nat): nat
    requires n > 0
  {
    Doubled(BUCKETS, Split(whole, n), BUCKETS)
  }

  /** A full copy: 16 bytes for each key. */
  function CopyBytes(whole: Table): nat {
    16 * |whole.Keys|
  }

  /** A fused backup of the contents, whatever its history. */
  ghost predicate Backs(l: Layout, whole: Table, n: nat)
    requires n > 0
  {
    Fuses(l, Split(whole, n)) && |l| == BUCKETS
  }

  // ----- every backup lies between the two counts

  lemma UsedIs(l: Layout, tables: seq<Table>, b: nat)
    requires Fuses(l, tables) && b < |l|
    ensures Occupied(l[b], |tables|) == UsedBy(|l|, tables, b)
  {
    forall s: nat | s < |tables| ensures |Project(l[b], s)| > 0 <==> InBucket(tables[s], b, |l|) != map[] {
      StepOf(l, tables, b, s);
      ListingSize(InBucket(tables[s], b, |l|));
    }
  }

  lemma {:induction false} SharedIs(l: Layout, tables: seq<Table>, k: nat)
    requires Fuses(l, tables) && k <= |l|
    ensures Shared(l[..k], |tables|) == Doubled(|l|, tables, k)
  {
    if k > 0 {
      SharedIs(l, tables, k - 1);
      UsedIs(l, tables, k - 1);
      assert l[..k][..k - 1] == l[..k - 1];
    }
  }

  lemma {:induction false} CompactNodes(l: Layout, tables: seq<Table>, k: nat)
    requires Compact(l, tables) && k <= |l|
    ensures Nodes(l[..k]) == MostNodes(|l|, tables, k)
  {
    if k > 0 {
      CompactNodes(l, tables, k - 1);
      assert l[..k][..k - 1] == l[..k - 1];
    }
  }

  lemma {:induction false} AtLeastMost(l: Layout, tables: seq<Table>, k: nat)
    requires Fuses(l, tables) && k <= |l|
    ensures MostNodes(|l|, tables, k) <= Nodes(l[..k])
  {
    if k > 0 {
      AtLeastMost(l, tables, k - 1);
      assert l[..k][..k - 1] == l[..k - 1];
      MostIsLongest(l, tables, k - 1, |tables|);
      assert tables[..|tables|] == tables;
      LongestFits(l[k - 1], |tables|);
    }
  }

  /** No backup of the contents has fewer nodes than FewestNodes or more than the keys less SurplusNodes. */
  lemma NodesBetween(l: Layout, whole: Table, n: nat)
    requires n > 0 && Backs(l, whole, n)
    ensures FewestNodes(whole, n) <= Nodes(l) <= |whole.Keys| - SurplusNodes(whole, n)
  {
    var tables := Split(whole, n);
    AtLeastMost(l, tables, |l|);
    SharedIs(l, tables, |l|);
    LayoutBound(l, n);
    RecordsAreKeys(l, whole, n);
    assert l[..|l|] == l;
  }

  // ----- Puts in ascending order lead to the fewest nodes

  /** What the database has after the Puts of the contents in the given order. */
  ghost predicate LeadsTo(puts: seq<KVRecord>, x: Backup, whole: Table, n: nat)
    requires n > 0
  {
    x == AfterPuts(EmptyBackup(n), puts) && x.tables == Split(whole, n) && |x.layout| == BUCKETS
  }

  lemma EmptyLeads(n: nat)
    requires n > 0
    ensures LeadsTo([], EmptyBackup(n), map[], n)
  {
    assert forall s :: 0 <= s < n ==> InBucket(map[], s, n) == map[];
    assert EmptyBackup(n).tables == Split(map[], n);
  }

  lemma OneMorePut(puts: seq<KVRecord>, x: Backup, whole: Table, n: nat, r: KVRecord)
    requires n > 0 && LeadsTo(puts, x, whole, n) && r.key !in whole
    ensures LeadsTo(puts + [r], AfterPut(x, r), With(whole, r.key, r.value), n)
    ensures x.tables[Bucket(r.key, n)] == InBucket(whole, Bucket(r.key, n), n)
  {
    NewPut(x, r);
    SplitWith(whole, n, r.key, r.value);
    assert (puts + [r])[..|puts|] == puts;
  }

  lemma PutLargest(x: Backup, r: KVRecord)
    requires Sound(x) && AllAligned(x.layout, |x.tables|)
    requires forall key :: key in x.tables[Bucket(r.key, |x.tables|)] ==> key < r.key
    ensures AllAligned(AfterPut(x, r).layout, |x.tables|)
  {
    NewPut(x, r);
    LastRank(x, r);
    AlignedStep(x.layout, |x.tables|, Bucket(r.key, |x.tables|), OwnRank(x, r), r);
  }

  ghost predicate Below(m: Table, bound: u64) {
    forall key :: key in m ==> key < bound
  }

  lemma LargestStep(puts: seq<KVRecord>, x: Backup, rest: Table, n: nat, r: KVRecord)
    requires n > 0 && LeadsTo(puts, x, rest, n) && AllAligned(x.layout, n)
    requires Below(rest, r.key)
    ensures LeadsTo(puts + [r], AfterPut(x, r), With(rest, r.key, r.value), n) && AllAligned(AfterPut(x, r).layout, n)
  {
    OneMorePut(puts, x, rest, n, r);
    PutLargest(x, r);
  }

  lemma ListingLast(whole: Table)
    requires whole.Keys != {}
    ensures var key := MaxKey(whole.Keys);
            && (whole - {key}).Keys == whole.Keys - {key} && With(whole - {key}, key, whole[key]) == whole
            && Listing(whole) == Listing(whole - {key}) + [KVRecord(key, whole[key])] && Below(whole - {key}, key)
  {
    PutBack(whole, MaxKey(whole.Keys));
  }

  /** What the Puts of the contents in key order lead to. */
  ghost function Rising(whole: Table, n: nat): (x: Backup)
    requires n > 0
    ensures Sound(x) && |x.tables| == n
  {
    AfterPuts(EmptyBackup(n), Listing(whole))
  }

  lemma {:induction false} RisingAligned(whole: Table, n: nat)
    requires n > 0
    ensures LeadsTo(Listing(whole), Rising(whole, n), whole, n) && AllAligned(Rising(whole, n).layout, n)
    decreases |whole.Keys|
  {
    if whole.Keys == {} {
      EmptyLeads(n);
      assert whole == map[];
    } else {
      ListingLast(whole);
      var key := MaxKey(whole.Keys);
      var rest := whole - {key};
      RisingAligned(rest, n);
      LargestStep(Listing(rest), Rising(rest, n), rest, n, KVRecord(key, whole[key]));
    }
  }

  // ----- shard by shard and downwards, to the most

  /** Source s has no record yet, or holds the first node. */
  ghost predicate Heads<T>(g: Grid<T>, s: nat) {
    Project(g, s) == [] || (g != [] && At(g[0], s).Some?)
  }

  /** As many nodes as a tight list of these records can have. */
  ghost predicate Full<T>(g: Grid<T>, n: nat) {
    |g| + Excess(Occupied(g, n)) == Records(g, n)
  }

  ghost predicate SameSource<T>(g: Grid<T>, h: Grid<T>, t: nat) {
    Project(h, t) == Project(g, t)
  }

  lemma {:induction false} OneMoreRecord<T>(g: Grid<T>, h: Grid<T>, s: nat, k: nat)
    requires |Project(h, s)| == |Project(g, s)| + 1
    requires forall t: nat :: t != s ==> SameSource(g, h, t)
    ensures Records(h, k) == Records(g, k) + if s < k then 1 else 0
  {
    if k > 0 {
      OneMoreRecord(g, h, s, k - 1);
      assert k - 1 != s ==> SameSource(g, h, k - 1);
    }
  }

  /** A record put before all others of its source shares the first node, if that has room for it. */
  lemma InsertFirst<T>(g: Grid<T>, n: nat, s: nat, x: T)
    requires Wide(g, n) && s < n
    ensures var h := Insert(g, n, s, 0, x);
            && |h| == |g| + (if g != [] && At(g[0], s).None? then 0 else 1)
            && At(h[0], s).Some? && Records(h, n) == Records(g, n) + 1
            && Occupied(h, n) == Occupied(g, n) + {s}
  {
    InsertSame(g, n, s, x);
    OneMoreRecord(g, Insert(g, n, s, 0, x), s, n);
    OneMoreInUse(g, Insert(g, n, s, 0, x), n, s);
  }

  lemma InsertSame<T>(g: Grid<T>, n: nat, s: nat, x: T)
    requires Wide(g, n) && s < n
    ensures var h := Insert(g, n, s, 0, x);
            |Project(h, s)| == |Project(g, s)| + 1 && forall t: nat :: t != s ==> SameSource(g, h, t)
  {
    InsertMeaning(g, n, s, 0, x);
  }

  lemma OneMoreInUse<T>(g: Grid<T>, h: Grid<T>, n: nat, s: nat)
    requires s < n && |Project(h, s)| > 0
    requires forall t: nat :: t != s ==> SameSource(g, h, t)
    ensures Occupied(h, n) == Occupied(g, n) + {s}
  {
    forall t: nat ensures t in Occupied(h, n) <==> t in Occupied(g, n) + {s} {
      assert t != s ==> SameSource(g, h, t);
    }
  }

  lemma HeadsAlike<T>(g: Grid<T>, s: nat)
    requires g != [] && Heads(g, s)
    ensures At(g[0], s).Some? <==> |Project(g, s)| > 0
  {
    if At(g[0], s).Some? {
      AlignedRecord(g, s, 0);
    }
  }

  lemma InUse<T>(g: Grid<T>, n: nat)
    requires Wide(g, n) && Tight(g) && g != []
    ensures Occupied(g, n) != {}
  {
    assert !Blank(g[0]) && |g[0]| == n;
    var t :| 0 <= t < n && g[0][t].Some?;
    AlignedRecord(g, t, 0);
    assert t in Occupied(g, n);
  }

  lemma FullStep<T>(g: Grid<T>, n: nat, s: nat, x: T)
    requires Wide(g, n) && Tight(g) && s < n && Full(g, n) && Heads(g, s)
    ensures Full(Insert(g, n, s, 0, x), n) && Heads(Insert(g, n, s, 0, x), s)
  {
    InsertFirst(g, n, s, x);
    if g == [] {
      assert Occupied(g, n) == {};
      assert |{s}| == 1;
    } else {
      InUse(g, n);
      HeadsAlike(g, s);
      if s in Occupied(g, n) {
        assert Occupied(g, n) + {s} == Occupied(g, n);
      }
    }
  }

  ghost predicate AllFull(l: Layout, n: nat) {
    forall b :: 0 <= b < |l| ==> Full(l[b], n)
  }

  ghost predicate HeadsAll(l: Layout, s: nat) {
    forall b :: 0 <= b < |l| ==> Heads(l[b], s)
  }

  lemma {:induction false} FullNodes(l: Layout, n: nat)
    requires AllFull(l, n)
    ensures Nodes(l) + Shared(l, n) == AllRecords(l, n)
  {
    if l == [] {
      AllRecordsOfNothing<KVRecord>(n);
    } else {
      var h, g := l[..|l| - 1], l[|l| - 1];
      FullNodes(h, n);
      assert l == h + [g];
      AllRecordsStep(h, g, n);
    }
  }

  ghost predicate Above(m: Table, bound: u64) {
    forall key :: key in m ==> bound < key
  }

  lemma PutSmallest(x: Backup, r: KVRecord)
    requires Sound(x) && AllFull(x.layout, |x.tables|) && HeadsAll(x.layout, Bucket(r.key, |x.tables|))
    requires Above(x.tables[Bucket(r.key, |x.tables|)], r.key)
    ensures var y := AfterPut(x, r);
            AllFull(y.layout, |x.tables|) && HeadsAll(y.layout, Bucket(r.key, |x.tables|))
  {
    NewPut(x, r);
    FirstRank(x, r);
    FullStep(x.layout[Bucket(r.key, |x.layout|)], |x.tables|, Bucket(r.key, |x.tables|), r);
  }

  /** Key a comes before key b, or is b: shard by shard, and within a shard downwards. */
  predicate Sooner(n: nat, a: u64, b: u64)
    requires n > 0
  {
    Bucket(a, n) < Bucket(b, n) || (Bucket(a, n) == Bucket(b, n) && a >= b)
  }

  ghost function LastTurn(keys: set<u64>, n: nat): (k: u64)
    requires n > 0 && keys != {}
    ensures k in keys && forall x :: x in keys ==> Sooner(n, x, k)
  {
    var x: u64 :| x in keys;
    var others := keys - {x};
    if others == {} then
      assert keys == {x};
      x
    else
      var y := LastTurn(others, n);
      assert forall z :: z in keys ==> z == x || z in others;
      if Sooner(n, y, x) then x else y
  }

  /** The contents shard by shard, each shard's keys downwards. */
  ghost function Downwards(whole: Table, n: nat): seq<KVRecord>
    requires n > 0
    decreases |whole.Keys|
  {
    if whole.Keys == {} then []
    else
      var key := LastTurn(whole.Keys, n);
      assert (whole - {key}).Keys == whole.Keys - {key};
      Downwards(whole - {key}, n) + [KVRecord(key, whole[key])]
  }

  /** No key belongs to a shard after s. */
  ghost predicate UpToShard(whole: Table, n: nat, s: nat)
    requires n > 0
  {
    forall key :: key in whole ==> Bucket(key, n) <= s
  }

  // The last shard in use holds the first nodes, and the shards after it have nothing yet.
  ghost predicate Steered(x: Backup, whole: Table, n: nat)
    requires n > 0
  {
    && x.tables == Split(whole, n) && Sound(x)
    && AllFull(x.layout, n) && forall s :: 0 <= s < n && UpToShard(whole, n, s) ==> HeadsAll(x.layout, s)
  }

  lemma NothingYet(x: Backup, whole: Table, n: nat, s: nat)
    requires n > 0 && Sound(x) && x.tables == Split(whole, n) && s < n
    requires forall key :: key in whole ==> Bucket(key, n) != s
    ensures HeadsAll(x.layout, s)
  {
    assert x.tables[s] == map[];
    forall b | 0 <= b < |x.layout| ensures Heads(x.layout[b], s) {
      StepOf(x.layout, x.tables, b, s);
      assert InBucket(map[], b, |x.layout|) == map[];
    }
  }

  lemma SteeredStep(x: Backup, whole: Table, n: nat, key: u64)
    requires n > 0 && key in whole && (forall k :: k in whole ==> Sooner(n, k, key))
    requires Steered(x, whole - {key}, n) && AfterPut(x, KVRecord(key, whole[key])).tables == Split(whole, n)
    ensures Steered(AfterPut(x, KVRecord(key, whole[key])), whole, n)
  {
    var r, s := KVRecord(key, whole[key]), Bucket(key, n);
    LastIsSmallest(whole, n, key);
    PutSmallest(x, r);
    LaterHeads(AfterPut(x, r), whole, n, key);
  }

  lemma LastIsSmallest(whole: Table, n: nat, key: u64)
    requires n > 0 && key in whole && forall k :: k in whole ==> Sooner(n, k, key)
    ensures UpToShard(whole - {key}, n, Bucket(key, n))
    ensures Above(Split(whole - {key}, n)[Bucket(key, n)], key)
  {
  }

  lemma LaterHeads(y: Backup, whole: Table, n: nat, key: u64)
    requires n > 0 && key in whole && (forall k :: k in whole ==> Sooner(n, k, key))
    requires Sound(y) && y.tables == Split(whole, n) && HeadsAll(y.layout, Bucket(key, n))
    ensures forall s :: 0 <= s < n && UpToShard(whole, n, s) ==> HeadsAll(y.layout, s)
  {
    forall s | 0 <= s < n && UpToShard(whole, n, s) ensures HeadsAll(y.layout, s) {
      if s != Bucket(key, n) {
        NothingYet(y, whole, n, s);
      }
    }
  }

  /** What they lead to. */
  ghost function Falling(whole: Table, n: nat): (x: Backup)
    requires n > 0
    ensures Sound(x) && |x.tables| == n
  {
    AfterPuts(EmptyBackup(n), Downwards(whole, n))
  }

  lemma {:induction false} FallingSteered(whole: Table, n: nat)
    requires n > 0
    ensures LeadsTo(Downwards(whole, n), Falling(whole, n), whole, n) && Steered(Falling(whole, n), whole, n)
    decreases |whole.Keys|
  {
    if whole.Keys == {} {
      EmptyLeads(n);
      assert whole == map[];
      EmptyFull(n);
    } else {
      var key := LastTurn(whole.Keys, n);
      var rest, r := whole - {key}, KVRecord(key, whole[key]);
      assert rest.Keys == whole.Keys - {key};
      FallingSteered(rest, n);
      OneMorePut(Downwards(rest, n), Falling(rest, n), rest, n, r);
      PutBack(whole, key);
      SteeredStep(Falling(rest, n), whole, n, key);
    }
  }

  lemma EmptyFull(n: nat)
    requires n > 0
    ensures Steered(EmptyBackup(n), map[], n)
  {
    EmptyLeads(n);
    RecordsOfNothing<KVRecord>(n);
    assert Occupied<KVRecord>([], n) == {};
  }

  // ----- both ends are reached

  /** In key order the contents take as few nodes as any backup of them. */
  lemma FewestReached(whole: Table, n: nat)
    requires n > 0
    ensures LeadsTo(Listing(whole), Rising(whole, n), whole, n) && Backs(Rising(whole, n).layout, whole, n)
    ensures Nodes(Rising(whole, n).layout) == FewestNodes(whole, n)
  {
    var l := Rising(whole, n).layout;
    RisingAligned(whole, n);
    AlignedCompact(l, Split(whole, n));
    CompactNodes(l, Split(whole, n), |l|);
    assert l[..|l|] == l;
  }

  /** Shard by shard and downwards they take as many as any. */
  lemma MostReached(whole: Table, n: nat)
    requires n > 0
    ensures LeadsTo(Downwards(whole, n), Falling(whole, n), whole, n) && Backs(Falling(whole, n).layout, whole, n)
    ensures Nodes(Falling(whole, n).layout) == |whole.Keys| - SurplusNodes(whole, n)
  {
    var l := Falling(whole, n).layout;
    FallingSteered(whole, n);
    FullNodes(l, n);
    SharedIs(l, Split(whole, n), |l|);
    RecordsAreKeys(l, whole, n);
    assert l[..|l|] == l;
  }

  // ----- the exact conditions

  function FewestBytes(whole: Table, n: nat): nat
    requires n > 0
  {
    FewestNodes(whole, n) * NodeBytes(n)
  }

  function MostBytes(whole: Table, n: nat): int
    requires n > 0
  {
    (|whole.Keys| - SurplusNodes(whole, n)) * NodeBytes(n)
  }

  lemma BytesBetween(l: Layout, whole: Table, n: nat)
    requires n > 0 && Backs(l, whole, n)
    ensures FewestBytes(whole, n) <= Bytes(l, n) <= MostBytes(whole, n)
  {
    NodesBetween(l, whole, n);
    Scaled(FewestNodes(whole, n), Nodes(l), NodeBytes(n));
    Scaled(Nodes(l), |whole.Keys| - SurplusNodes(whole, n), NodeBytes(n));
  }

  /** Every backup of the contents is smaller than a full copy if and only if the keys,
      less the shards that share buckets, are few enough. */
  lemma AlwaysSaves(whole: Table, n: nat)
    requires n > 0
    ensures (forall l :: Backs(l, whole, n) ==> Bytes(l, n) < CopyBytes(whole)) <==>
              MostBytes(whole, n) < CopyBytes(whole)
  {
    if MostBytes(whole, n) < CopyBytes(whole) {
      forall l | Backs(l, whole, n) ensures Bytes(l, n) < CopyBytes(whole) {
        BytesBetween(l, whole, n);
      }
    } else {
      MostReached(whole, n);
      assert Bytes(Falling(whole, n).layout, n) == MostBytes(whole, n);
    }
  }

  /** Some backup is, if and only if the keys of each bucket's fullest shard are few enough. */
  lemma CanSave(whole: Table, n: nat)
    requires n > 0
    ensures (exists l :: Backs(l, whole, n) && Bytes(l, n) < CopyBytes(whole)) <==>
              FewestBytes(whole, n) < CopyBytes(whole)
  {
    if FewestBytes(whole, n) < CopyBytes(whole) {
      FewestReached(whole, n);
      assert Bytes(Rising(whole, n).layout, n) == FewestBytes(whole, n);
    } else {
      forall l | Backs(l, whole, n) ensures Bytes(l, n) >= CopyBytes(whole) {
        BytesBetween(l, whole, n);
      }
    }
  }

  /** And a backup that is built at opening then is. */
  lemma RebuiltSaves(l: Layout, whole: Table, n: nat)
    requires n > 0 && Compact(l, Split(whole, n)) && |l| == BUCKETS
    ensures Bytes(l, n) == FewestBytes(whole, n)
    ensures Bytes(l, n) < CopyBytes(whole) <==> FewestBytes(whole, n) < CopyBytes(whole)
  {
    CompactNodes(l, Split(whole, n), |l|);
    assert l[..|l|] == l;
  }

  // ----- many keys never make it sure

  lemma {:induction false} SmallSet(a: set<nat>, n: nat)
    requires forall s :: s in a ==> s < n
    ensures |a| <= n
  {
    if n > 0 {
      SmallSet(a - {n - 1}, n - 1);
      assert n - 1 in a ==> a == (a - {n - 1}) + {n - 1};
      assert n - 1 !in a ==> a == a - {n - 1};
    } else {
      assert a == {};
    }
  }

  lemma {:induction false} DoubledBounded(count: nat, tables: seq<Table>, k: nat)
    requires count > 0 && |tables| > 0
    ensures Doubled(count, tables, k) <= k * (|tables| - 1)
  {
    if k > 0 {
      DoubledBounded(count, tables, k - 1);
      SmallSet(UsedBy(count, tables, k - 1), |tables|);
      assert k * (|tables| - 1) == (k - 1) * (|tables| - 1) + (|tables| - 1);
    }
  }

  lemma TooMany(keys: nat, surplus: nat, width: nat, n: nat)
    requires n > 0 && surplus <= 16 * (n - 1) && keys * (width - 16) >= width * (16 * (n - 1))
    ensures (keys - surplus) * width >= 16 * keys
  {
    Scaled(surplus, 16 * (n - 1), width);
    assert keys * (width - 16) == keys * width - 16 * keys;
    assert (keys - surplus) * width == keys * width - surplus * width;
  }

  lemma SurplusBounded(whole: Table, n: nat)
    requires n > 0
    ensures SurplusNodes(whole, n) <= 16 * (n - 1)
  {
    DoubledBounded(BUCKETS, Split(whole, n), BUCKETS);
  }

  ghost predicate Many(keys: nat, width: nat, n: nat) {
    n > 0 && keys * (width - 16) >= width * (16 * (n - 1))
  }

  lemma ManyIsTooMany(whole: Table, n: nat, width: nat)
    requires Many(|whole.Keys|, width, n) && width == NodeBytes(n)
    ensures MostBytes(whole, n) >= CopyBytes(whole)
  {
    SurplusBounded(whole, n);
    TooMany(|whole.Keys|, SurplusNodes(whole, n), width, n);
  }

  /** From so many keys on, whatever they are, some order of their Puts ends in a backup no smaller than a copy. */
  lemma LargeNeverSure(whole: Table, n: nat)
    requires Many(|whole.Keys|, NodeBytes(n), n)
    ensures LeadsTo(Downwards(whole, n), Falling(whole, n), whole, n)
    ensures Bytes(Falling(whole, n).layout, n) >= CopyBytes(whole)
  {
    MostReached(whole, n);
    ManyIsTooMany(whole, n, NodeBytes(n));
    assert Bytes(Falling(whole, n).layout, n) == MostBytes(whole, n);
  }

  /** With three shards, from 544 keys on. */
  lemma ThreeShards(whole: Table)
    requires |whole.Keys| >= 544
    ensures LeadsTo(Downwards(whole, 3), Falling(whole, 3), whole, 3)
    ensures Bytes(Falling(whole, 3).layout, 3) >= CopyBytes(whole)
  {
    LargeNeverSure(whole, 3);
  }
}
