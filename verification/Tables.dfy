/** Key-value records, key-sorted listings of a map, and their split into buckets. */
module Tables {
  import opened Words
  import opened Sets

  datatype KVRecord = KVRecord(key: u64, value: u64)

  type Table = map<u64, u64>

  function With(m: Table, key: u64, value: u64): Table {
    m[key := value]
  }

  function WithoutKey(m: Table, key: u64): Table {
    m - {key}
  }

  function XorRecords(a: KVRecord, b: KVRecord): KVRecord {
    KVRecord(Xor64(a.key, b.key), Xor64(a.value, b.value))
  }

  /** The exclusive-or of keys and of values, side by side, as the nodes of a fused KV table keep them. */
  const RECORD_OPS: XorOps<KVRecord> := XorOps(KVRecord(0, 0), XorRecords)

  lemma RecordOpsLawful()
    ensures Lawful(RECORD_OPS)
  {
    forall a: KVRecord
      ensures Xor(RECORD_OPS, a, RECORD_OPS.zero) == a && Xor(RECORD_OPS, a, a) == RECORD_OPS.zero
    {
      XorDigitsZero(a.key);
      XorDigitsZero(a.value);
    }
    forall a: KVRecord, b: KVRecord ensures Xor(RECORD_OPS, a, b) == Xor(RECORD_OPS, b, a) {
      XorDigitsSymmetric(a.key, b.key);
      XorDigitsSymmetric(a.value, b.value);
    }
    forall a: KVRecord, b: KVRecord, c: KVRecord
      ensures Xor(RECORD_OPS, Xor(RECORD_OPS, a, b), c) == Xor(RECORD_OPS, a, Xor(RECORD_OPS, b, c))
    {
      XorDigitsAssociative(a.key, b.key, c.key);
      XorDigitsAssociative(a.value, b.value, c.value);
    }
  }

  // ----- listings

  /** Strictly ascending keys. */
  ghost predicate Ascending(rs: seq<KVRecord>) {
    forall i, j :: 0 <= i < j < |rs| ==> rs[i].key < rs[j].key
  }

  /** rs is the table, record by record in key order. */
  ghost predicate Lists(rs: seq<KVRecord>, m: Table) {
    && Ascending(rs)
    && (forall r :: r in rs ==> r.key in m && m[r.key] == r.value)
    && (forall k :: k in m ==> KVRecord(k, m[k]) in rs)
  }

  ghost function MaxKey(keys: set<u64>): (k: u64)
    requires keys != {}
    ensures k in keys && forall x :: x in keys ==> x <= k
  {
    var x: u64 :| x in keys;
    var others := keys - {x};
    if others == {} then
      assert keys == {x};
      x
    else
      var y := MaxKey(others);
      assert forall z :: z in keys ==> z == x || z in others;
      if x < y then y else x
  }

  ghost function Listing(m: Table): seq<KVRecord>
    decreases |m.Keys|
  {
    if m.Keys == {} then []
    else
      var k := MaxKey(m.Keys);
      assert (m - {k}).Keys == m.Keys - {k};
      Listing(m - {k}) + [KVRecord(k, m[k])]
  }

  lemma {:induction false} ListingLists(m: Table)
    ensures Lists(Listing(m), m)
    decreases |m.Keys|
  {
    if m.Keys != {} {
      var k := MaxKey(m.Keys);
      assert (m - {k}).Keys == m.Keys - {k};
      ListingLists(m - {k});
      ListsAppend(Listing(m - {k}), m - {k}, k, m[k]);
      PutBack(m, k);
    }
  }

  lemma PutBack(m: Table, k: u64)
    requires k in m
    ensures With(m - {k}, k, m[k]) == m
  {
  }

  lemma ListsAppend(rs: seq<KVRecord>, m: Table, key: u64, value: u64)
    requires Lists(rs, m) && forall k :: k in m ==> k < key
    ensures Lists(rs + [KVRecord(key, value)], With(m, key, value))
  {
  }

  lemma ListsInit(rs: seq<KVRecord>, m: Table)
    requires Lists(rs, m) && rs != []
    ensures var last := rs[|rs| - 1];
            && Lists(rs[..|rs| - 1], WithoutKey(m, last.key))
            && With(WithoutKey(m, last.key), last.key, last.value) == m
  {
    var init, last := rs[..|rs| - 1], rs[|rs| - 1];
    InitMembers(rs);
    BelowLast(rs);
    assert last in rs;
    PutBack(m, last.key);
    forall k | k in WithoutKey(m, last.key) ensures KVRecord(k, m[k]) in init {
      assert KVRecord(k, m[k]) in rs;
    }
  }

  lemma InitMembers<T>(s: seq<T>)
    requires s != []
    ensures forall x :: x in s <==> x in s[..|s| - 1] || x == s[|s| - 1]
  {
    assert s == s[..|s| - 1] + [s[|s| - 1]];
  }

  lemma BelowLast(rs: seq<KVRecord>)
    requires Ascending(rs) && rs != []
    ensures Ascending(rs[..|rs| - 1]) && forall r :: r in rs[..|rs| - 1] ==> r.key < rs[|rs| - 1].key
  {
  }

  lemma {:induction false} AscendingUnique(a: seq<KVRecord>, b: seq<KVRecord>)
    requires Ascending(a) && Ascending(b)
    requires forall r :: r in a <==> r in b
    ensures a == b
  {
    assert a != [] ==> a[0] in b;
    assert b != [] ==> b[0] in a;
    if a != [] && b != [] {
      var x, y := a[|a| - 1], b[|b| - 1];
      assert y in a && x in b;
      var a', b' := a[..|a| - 1], b[..|b| - 1];
      forall r ensures r in a' <==> r in b' {
        assert r in a' <==> r in a && r != x;
        assert r in b' <==> r in b && r != y;
      }
      AscendingUnique(a', b');
    }
  }

  lemma ListsSame(a: seq<KVRecord>, b: seq<KVRecord>, m: Table)
    requires Lists(a, m) && Lists(b, m)
    ensures a == b
  {
    forall r ensures r in a <==> r in b {
      assert r.key in m ==> KVRecord(r.key, m[r.key]) in a && KVRecord(r.key, m[r.key]) in b;
    }
    AscendingUnique(a, b);
  }

  /** A table has one listing only. */
  lemma ListsUnique(rs: seq<KVRecord>, m: Table)
    requires Lists(rs, m)
    ensures rs == Listing(m)
  {
    ListingLists(m);
    ListsSame(rs, Listing(m), m);
  }

  lemma {:induction false} ListingSize(m: Table)
    ensures |Listing(m)| == |m.Keys|
    decreases |m.Keys|
  {
    if m.Keys != {} {
      var k := MaxKey(m.Keys);
      assert (m - {k}).Keys == m.Keys - {k};
      ListingSize(m - {k});
    }
  }

  /** i is the number of keys below key: what sort.Search finds in a sorted listing. */
  ghost predicate IsRank(rs: seq<KVRecord>, key: u64, i: nat) {
    && i <= |rs|
    && (forall j :: 0 <= j < i ==> rs[j].key < key)
    && (forall j :: i <= j < |rs| ==> key <= rs[j].key)
  }

  lemma RankHits(rs: seq<KVRecord>, m: Table, key: u64, i: nat)
    requires Lists(rs, m) && IsRank(rs, key, i)
    ensures key in m <==> i < |rs| && rs[i].key == key
    ensures key in m ==> rs[i] == KVRecord(key, m[key])
  {
    if key in m {
      assert KVRecord(key, m[key]) in rs;
      var j :| 0 <= j < |rs| && rs[j] == KVRecord(key, m[key]);
    }
    if i < |rs| {
      assert rs[i] in rs;
    }
  }

  lemma AddMembers<T>(s: seq<T>, x: T, i: nat)
    requires i <= |s|
    ensures forall r :: r in s[..i] + [x] + s[i..] <==> r in s || r == x
  {
    assert s == s[..i] + s[i..];
  }

  lemma AscendingAdd(rs: seq<KVRecord>, x: KVRecord, i: nat)
    requires Ascending(rs) && IsRank(rs, x.key, i) && (i < |rs| ==> rs[i].key != x.key)
    ensures Ascending(rs[..i] + [x] + rs[i..])
  {
    var added := rs[..i] + [x] + rs[i..];
    assert forall j :: 0 <= j < i ==> added[j] == rs[j];
    assert forall j :: i < j < |added| ==> added[j] == rs[j - 1];
  }

  lemma AscendingRemove(rs: seq<KVRecord>, i: nat)
    requires Ascending(rs) && i < |rs|
    ensures Ascending(rs[..i] + rs[i + 1..])
    ensures forall r :: r in rs[..i] + rs[i + 1..] <==> r in rs && r.key != rs[i].key
  {
    var left := rs[..i] + rs[i + 1..];
    assert forall j :: 0 <= j < i ==> left[j] == rs[j];
    assert forall j :: i <= j < |left| ==> left[j] == rs[j + 1];
    forall r ensures r in left <==> r in rs && r.key != rs[i].key {
      RemoveMember(rs, i, r);
    }
  }

  lemma RemoveMember(rs: seq<KVRecord>, i: nat, r: KVRecord)
    requires Ascending(rs) && i < |rs|
    ensures r in rs[..i] + rs[i + 1..] <==> r in rs && r.key != rs[i].key
  {
    assert rs == rs[..i] + [rs[i]] + rs[i + 1..];
    assert forall j :: 0 <= j < |rs| && j != i ==> rs[j].key != rs[i].key;
    if r in rs[..i] {
      var j :| 0 <= j < i && rs[j] == r;
    } else if r in rs[i + 1..] {
      var j :| i < j < |rs| && rs[j] == r;
    }
  }

  lemma ListsAdd(rs: seq<KVRecord>, m: Table, key: u64, value: u64, i: nat)
    requires Lists(rs, m) && key !in m && IsRank(rs, key, i)
    ensures Lists(rs[..i] + [KVRecord(key, value)] + rs[i..], With(m, key, value))
  {
    RankHits(rs, m, key, i);
    AscendingAdd(rs, KVRecord(key, value), i);
    AddMembers(rs, KVRecord(key, value), i);
  }

  lemma ListsReplace(rs: seq<KVRecord>, m: Table, key: u64, value: u64, i: nat)
    requires Lists(rs, m) && key in m && IsRank(rs, key, i)
    ensures i < |rs| && Lists(rs[i := KVRecord(key, value)], With(m, key, value))
  {
    RankHits(rs, m, key, i);
    var replaced := rs[i := KVRecord(key, value)];
    forall r | r in rs && r.key != key ensures r in replaced {
      var j :| 0 <= j < |rs| && rs[j] == r;
      assert replaced[j] == r;
    }
    assert replaced[i] in replaced;
    forall j | 0 <= j < |rs| && j != i ensures replaced[j] in rs && replaced[j].key != key {
    }
  }

  lemma ListsRemove(rs: seq<KVRecord>, m: Table, key: u64, i: nat)
    requires Lists(rs, m) && key in m && IsRank(rs, key, i)
    ensures i < |rs| && Lists(rs[..i] + rs[i + 1..], WithoutKey(m, key))
  {
    RankHits(rs, m, key, i);
    AscendingRemove(rs, i);
  }

  /** What Put and Delete do to the listing of a table, at the rank of the key. */
  lemma ListingPut(m: Table, key: u64, value: u64, i: nat)
    requires IsRank(Listing(m), key, i)
    ensures key in m <==> i < |Listing(m)| && Listing(m)[i].key == key
    ensures key in m ==> Listing(m)[i] == KVRecord(key, m[key])
    ensures Listing(With(m, key, value)) ==
            if key in m then Listing(m)[i := KVRecord(key, value)]
            else Listing(m)[..i] + [KVRecord(key, value)] + Listing(m)[i..]
  {
    var rs := Listing(m);
    ListingLists(m);
    RankHits(rs, m, key, i);
    if key in m {
      ListsReplace(rs, m, key, value, i);
      ListsUnique(rs[i := KVRecord(key, value)], With(m, key, value));
    } else {
      ListsAdd(rs, m, key, value, i);
      ListsUnique(rs[..i] + [KVRecord(key, value)] + rs[i..], With(m, key, value));
    }
  }

  lemma ListingRemove(m: Table, key: u64, i: nat)
    requires key in m && IsRank(Listing(m), key, i)
    ensures i < |Listing(m)| && Listing(m)[i] == KVRecord(key, m[key])
    ensures Listing(WithoutKey(m, key)) == Listing(m)[..i] + Listing(m)[i + 1..]
  {
    var rs := Listing(m);
    ListingLists(m);
    RankHits(rs, m, key, i);
    ListsRemove(rs, m, key, i);
    ListsUnique(rs[..i] + rs[i + 1..], WithoutKey(m, key));
  }

  // ----- sorting

  predicate SortedByKey(rs: seq<KVRecord>) {
    forall i, j :: 0 <= i < j < |rs| ==> rs[i].key <= rs[j].key
  }

  /** sort.Slice by Key: some ordering of the records in which keys do not descend. */
  method SortByKey(rs: seq<KVRecord>) returns (sorted: seq<KVRecord>)
    ensures SortedByKey(sorted) && multiset(sorted) == multiset(rs)
  {
    sorted := [];
    for i := 0 to |rs|
      invariant SortedByKey(sorted) && multiset(sorted) == multiset(rs[..i])
    {
      sorted := InsertByKey(sorted, rs[i]);
      assert rs[..i + 1] == rs[..i] + [rs[i]];
    }
    assert rs[..|rs|] == rs;
  }

  method InsertByKey(rs: seq<KVRecord>, x: KVRecord) returns (placed: seq<KVRecord>)
    requires SortedByKey(rs)
    ensures SortedByKey(placed) && multiset(placed) == multiset(rs) + multiset{x}
  {
    var k := |rs|;
    while k > 0 && rs[k - 1].key > x.key
      invariant 0 <= k <= |rs|
      invariant forall j :: k <= j < |rs| ==> x.key < rs[j].key
    {
      k := k - 1;
    }
    PlaceIn(rs, x, k);
    placed := rs[..k] + [x] + rs[k..];
  }

  lemma PlaceIn(rs: seq<KVRecord>, x: KVRecord, k: nat)
    requires SortedByKey(rs) && k <= |rs|
    requires k > 0 ==> rs[k - 1].key <= x.key
    requires forall j :: k <= j < |rs| ==> x.key < rs[j].key
    ensures SortedByKey(rs[..k] + [x] + rs[k..])
    ensures multiset(rs[..k] + [x] + rs[k..]) == multiset(rs) + multiset{x}
  {
    SortedPlaceIn(rs, x, k);
    BagPlaceIn(rs, x, k);
  }

  lemma BagPlaceIn<T>(rs: seq<T>, x: T, k: nat)
    requires k <= |rs|
    ensures multiset(rs[..k] + [x] + rs[k..]) == multiset(rs) + multiset{x}
  {
    assert rs == rs[..k] + rs[k..];
  }

  lemma SortedPlaceIn(rs: seq<KVRecord>, x: KVRecord, k: nat)
    requires SortedByKey(rs) && k <= |rs|
    requires k > 0 ==> rs[k - 1].key <= x.key
    requires forall j :: k <= j < |rs| ==> x.key < rs[j].key
    ensures SortedByKey(rs[..k] + [x] + rs[k..])
  {
    var placed := rs[..k] + [x] + rs[k..];
    assert forall j :: 0 <= j < k ==> placed[j] == rs[j];
    assert forall j :: k < j < |placed| ==> placed[j] == rs[j - 1];
  }

  /** Sorting any ordering of a strictly ascending listing gives the listing. */
  lemma {:induction false} SortedUnique(a: seq<KVRecord>, b: seq<KVRecord>)
    requires SortedByKey(a) && Ascending(b) && multiset(a) == multiset(b)
    ensures a == b
  {
    SameSize(a, b);
    if a != [] {
      var last := |a| - 1;
      SameLast(a, b);
      SortedInit(a);
      BelowLast(b);
      SortedUnique(a[..last], b[..last]);
      SameEnd(a, b);
    }
  }

  lemma SameSize<T>(a: seq<T>, b: seq<T>)
    requires multiset(a) == multiset(b)
    ensures |a| == |b|
  {
    assert |multiset(a)| == |a| && |multiset(b)| == |b|;
  }

  lemma SortedInit(rs: seq<KVRecord>)
    requires SortedByKey(rs) && rs != []
    ensures SortedByKey(rs[..|rs| - 1])
  {
  }

  lemma SameEnd<T>(a: seq<T>, b: seq<T>)
    requires |a| == |b| > 0 && a[..|a| - 1] == b[..|b| - 1] && a[|a| - 1] == b[|b| - 1]
    ensures a == b
  {
    assert a == a[..|a| - 1] + [a[|a| - 1]];
    assert b == b[..|b| - 1] + [b[|b| - 1]];
  }

  lemma SameLast(a: seq<KVRecord>, b: seq<KVRecord>)
    requires SortedByKey(a) && Ascending(b) && multiset(a) == multiset(b)
    requires |a| == |b| > 0
    ensures a[|a| - 1] == b[|b| - 1]
    ensures multiset(a[..|a| - 1]) == multiset(b[..|b| - 1])
  {
    var x, y := a[|a| - 1], b[|b| - 1];
    assert x in multiset(a) && x in b;
    assert y in multiset(b) && y in a;
    LastOut(a);
    LastOut(b);
  }

  lemma LastOut<T>(s: seq<T>)
    requires s != []
    ensures multiset(s[..|s| - 1]) == multiset(s) - multiset{s[|s| - 1]}
  {
    assert s == s[..|s| - 1] + [s[|s| - 1]];
  }

  // ----- copying a table out of its map

  /** The table's records, once each, in any order. */
  ghost predicate IsBag(rs: seq<KVRecord>, m: Table) {
    forall x: KVRecord :: multiset(rs)[x] == if x.key in m && m[x.key] == x.value then 1 else 0
  }

  lemma BagAdd(rs: seq<KVRecord>, m: Table, key: u64, value: u64)
    requires IsBag(rs, m) && key !in m
    ensures IsBag(rs + [KVRecord(key, value)], With(m, key, value))
  {
    var x := KVRecord(key, value);
    assert multiset(rs + [x]) == multiset(rs) + multiset{x};
  }

  lemma {:induction false} Twice<T>(s: seq<T>, i: nat, j: nat)
    requires i < j < |s| && s[i] == s[j]
    ensures multiset(s)[s[i]] >= 2
  {
    var x := s[i];
    assert s == s[..j] + s[j..];
    assert x in s[..j] && x in s[j..];
  }

  lemma BagMember(rs: seq<KVRecord>, m: Table, r: KVRecord)
    requires IsBag(rs, m)
    ensures r in rs <==> r.key in m && m[r.key] == r.value
  {
    assert r in rs <==> multiset(rs)[r] > 0;
  }

  lemma BagUnion(a: seq<KVRecord>, m: Table, b: seq<KVRecord>, n: Table)
    requires IsBag(a, m) && IsBag(b, n) && m.Keys !! n.Keys
    ensures IsBag(a + b, m + n)
  {
    forall x: KVRecord ensures multiset(a + b)[x] == if x.key in m + n && (m + n)[x.key] == x.value then 1 else 0 {
      assert multiset(a + b)[x] == multiset(a)[x] + multiset(b)[x];
    }
  }

  /** A sorted bag is the listing. */
  lemma SortedBag(rs: seq<KVRecord>, m: Table)
    requires SortedByKey(rs) && IsBag(rs, m)
    ensures rs == Listing(m)
  {
    forall r ensures r in rs <==> r.key in m && m[r.key] == r.value {
      BagMember(rs, m, r);
    }
    forall i, j | 0 <= i < j < |rs| ensures rs[i].key < rs[j].key {
      assert rs[i] in rs && rs[j] in rs;
      if rs[i].key == rs[j].key {
        Twice(rs, i, j);
      }
    }
    ListsUnique(rs, m);
  }

  /** The keys of the map in whatever order the iteration gives them. */
  method CopyRecords(data: Table) returns (records: seq<KVRecord>)
    ensures IsBag(records, data)
  {
    records := [];
    var todo := data.Keys;
    ghost var done: Table := map[];
    while todo != {}
      invariant todo <= data.Keys && done == map k | k in data && k !in todo :: data[k]
      invariant IsBag(records, done)
    {
      var key := AnyOf(todo);
      BagAdd(records, done, key, data[key]);
      records := records + [KVRecord(key, data[key])];
      todo := todo - {key};
      done := With(done, key, data[key]);
    }
    assert done == data;
  }

  /** recordsFromMap */
  method RecordsFromMap(data: Table) returns (records: seq<KVRecord>)
    ensures records == Listing(data)
  {
    records := CopyRecords(data);
    records := SortBag(records, data);
  }

  method SortBag(records: seq<KVRecord>, ghost data: Table) returns (sorted: seq<KVRecord>)
    requires IsBag(records, data)
    ensures sorted == Listing(data)
  {
    sorted := SortByKey(records);
    SortedBag(sorted, data);
  }

  ghost predicate Sorted(list: seq<int>) {
    forall i, j :: 0 <= i < j < |list| ==> list[i] <= list[j]
  }

  /** sort.Search: how many words of an ascending list are below the given one. */
  method Search(list: seq<u64>, word: u64) returns (i: nat)
    requires Sorted(list)
    ensures i <= |list|
    ensures forall k :: 0 <= k < i ==> list[k] < word
    ensures forall k :: i <= k < |list| ==> word <= list[k]
  {
    i := 0;
    var j := |list|;
    while i < j
      invariant i <= j <= |list|
      invariant forall k :: 0 <= k < i ==> list[k] < word
      invariant forall k :: j <= k < |list| ==> word <= list[k]
    {
      var mid := (i + j) / 2;
      if list[mid] >= word {
        j := mid;
      } else {
        i := mid + 1;
      }
    }
  }

  // ----- buckets

  /** The bucket of a key in a table, and its shard in a database. */
  function Bucket(key: u64, count: nat): nat
    requires count > 0
  {
    key % count
  }

  /** The records of one bucket, in their old order. */
  function Group(rs: seq<KVRecord>, b: nat, count: nat): seq<KVRecord>
    requires count > 0
  {
    if rs == [] then []
    else
      var last := rs[|rs| - 1];
      Group(rs[..|rs| - 1], b, count) + if Bucket(last.key, count) == b then [last] else []
  }

  function InBucket(m: Table, b: nat, count: nat): Table
    requires count > 0
  {
    map k | k in m && Bucket(k, count) == b :: m[k]
  }

  /** The entries of the first k buckets. */
  ghost function FirstBuckets(m: Table, k: nat, count: nat): Table
    requires count > 0
  {
    map key | key in m && Bucket(key, count) < k :: m[key]
  }

  lemma FirstBucketsStep(m: Table, k: nat, count: nat)
    requires count > 0
    ensures FirstBuckets(m, k + 1, count) == FirstBuckets(m, k, count) + InBucket(m, k, count)
    ensures FirstBuckets(m, k, count).Keys !! InBucket(m, k, count).Keys
    ensures FirstBuckets(m, count, count) == m && FirstBuckets(m, 0, count) == map[]
  {
  }

  lemma {:induction false} GroupCount(rs: seq<KVRecord>, b: nat, count: nat, x: KVRecord)
    requires count > 0
    ensures multiset(Group(rs, b, count))[x] == if Bucket(x.key, count) == b then multiset(rs)[x] else 0
  {
    if rs != [] {
      assert rs == rs[..|rs| - 1] + [rs[|rs| - 1]];
      GroupCount(rs[..|rs| - 1], b, count, x);
    }
  }

  lemma GroupPermutes(rs: seq<KVRecord>, other: seq<KVRecord>, b: nat, count: nat)
    requires count > 0 && multiset(rs) == multiset(other)
    ensures multiset(Group(rs, b, count)) == multiset(Group(other, b, count))
  {
    forall x ensures multiset(Group(rs, b, count))[x] == multiset(Group(other, b, count))[x] {
      GroupCount(rs, b, count, x);
      GroupCount(other, b, count, x);
    }
  }

  lemma {:induction false} GroupAscends(rs: seq<KVRecord>, b: nat, count: nat)
    requires count > 0 && Ascending(rs)
    ensures Ascending(Group(rs, b, count))
    ensures forall r :: r in Group(rs, b, count) <==> r in rs && Bucket(r.key, count) == b
  {
    if rs != [] {
      var init, last := rs[..|rs| - 1], rs[|rs| - 1];
      GroupAscends(init, b, count);
      assert forall r :: r in rs <==> r in init || r == last;
    }
  }

  lemma GroupOfListing(m: Table, b: nat, count: nat)
    requires count > 0
    ensures Group(Listing(m), b, count) == Listing(InBucket(m, b, count))
  {
    var rs := Listing(m);
    ListingLists(m);
    GroupAscends(rs, b, count);
    ListsUnique(Group(rs, b, count), InBucket(m, b, count));
  }

  /** Any ordering of a table's records splits into orderings of its buckets' listings. */
  lemma GroupMatches(rs: seq<KVRecord>, m: Table, b: nat, count: nat)
    requires count > 0 && multiset(rs) == multiset(Listing(m))
    ensures multiset(Group(rs, b, count)) == multiset(Listing(InBucket(m, b, count)))
    ensures |Group(rs, b, count)| == |Listing(InBucket(m, b, count))|
  {
    GroupPermutes(rs, Listing(m), b, count);
    GroupOfListing(m, b, count);
    assert |multiset(Group(rs, b, count))| == |multiset(Listing(InBucket(m, b, count)))|;
  }

  lemma SortedIsListing(sorted: seq<KVRecord>, m: Table)
    requires SortedByKey(sorted) && multiset(sorted) == multiset(Listing(m))
    ensures sorted == Listing(m)
  {
    ListingLists(m);
    SortedUnique(sorted, Listing(m));
  }

  lemma {:induction false} ChainOfListings(parts: seq<seq<KVRecord>>, m: Table, k: nat, count: nat)
    requires count > 0 && k == |parts|
    requires forall b :: 0 <= b < k ==> parts[b] == Listing(InBucket(m, b, count))
    ensures Flatten(parts) == Chain(Listing(m), k, count)
  {
    if k > 0 {
      ChainOfListings(parts[..k - 1], m, k - 1, count);
      GroupOfListing(m, k - 1, count);
    }
  }

  function Flatten(parts: seq<seq<KVRecord>>): seq<KVRecord> {
    if parts == [] then [] else Flatten(parts[..|parts| - 1]) + parts[|parts| - 1]
  }

  /** The first k buckets one after another. */
  function Chain(rs: seq<KVRecord>, k: nat, count: nat): seq<KVRecord>
    requires count > 0
  {
    if k == 0 then [] else Chain(rs, k - 1, count) + Group(rs, k - 1, count)
  }

  lemma ChainStep(rs: seq<KVRecord>, k: nat, count: nat, x: KVRecord)
    requires count > 0 && k > 0
    ensures multiset(Chain(rs, k, count))[x] == multiset(Chain(rs, k - 1, count))[x] +
              multiset(Group(rs, k - 1, count))[x]
  {
    SumCount(Chain(rs, k - 1, count), Group(rs, k - 1, count), x);
  }

  lemma {:induction false} ChainCount(rs: seq<KVRecord>, k: nat, count: nat, x: KVRecord, home: nat)
    requires count > 0
    requires forall b: nat :: multiset(Group(rs, b, count))[x] == if b == home then multiset(rs)[x] else 0
    ensures multiset(Chain(rs, k, count))[x] == if home < k then multiset(rs)[x] else 0
  {
    if k > 0 {
      ChainCount(rs, k - 1, count, x, home);
      ChainStep(rs, k, count, x);
    }
  }

  lemma SumCount<T>(a: seq<T>, b: seq<T>, x: T)
    ensures multiset(a + b)[x] == multiset(a)[x] + multiset(b)[x]
  {
  }

  /** All buckets together hold the records they were filled from. */
  lemma ChainPermutes(rs: seq<KVRecord>, count: nat)
    requires count > 0
    ensures multiset(Chain(rs, count, count)) == multiset(rs)
  {
    forall x ensures multiset(Chain(rs, count, count))[x] == multiset(rs)[x] {
      forall b: nat ensures multiset(Group(rs, b, count))[x] ==
        if b == Bucket(x.key, count) then multiset(rs)[x] else 0
      {
        GroupCount(rs, b, count, x);
      }
      ChainCount(rs, count, count, x, Bucket(x.key, count));
    }
  }

  lemma InBucketPut(m: Table, key: u64, value: u64, b: nat, count: nat)
    requires count > 0
    ensures InBucket(With(m, key, value), b, count)
         == if Bucket(key, count) == b then With(InBucket(m, b, count), key, value) else InBucket(m, b, count)
    ensures InBucket(WithoutKey(m, key), b, count)
         == if Bucket(key, count) == b then WithoutKey(InBucket(m, b, count), key) else InBucket(m, b, count)
  {
  }

  // ----- records ordered by bucket, then key

  lemma {:induction false} GroupAppend(a: seq<KVRecord>, b: seq<KVRecord>, bucket: nat, count: nat)
    requires count > 0
    ensures Group(a + b, bucket, count) == Group(a, bucket, count) + Group(b, bucket, count)
  {
    if b == [] {
      assert a + b == a;
    } else {
      assert (a + b)[..|a + b| - 1] == a + b[..|b| - 1];
      GroupAppend(a, b[..|b| - 1], bucket, count);
    }
  }

  lemma {:induction false} GroupOfGroup(rs: seq<KVRecord>, b: nat, c: nat, count: nat)
    requires count > 0
    ensures Group(Group(rs, b, count), c, count) == if b == c then Group(rs, b, count) else []
  {
    if rs != [] {
      var init, last := rs[..|rs| - 1], rs[|rs| - 1];
      GroupOfGroup(init, b, c, count);
      var more := if Bucket(last.key, count) == b then [last] else [];
      GroupAppend(Group(init, b, count), more, c, count);
      assert Group(more, c, count) == if b == c then more else [] by {
        assert more != [] ==> more[..0] == [];
      }
    }
  }

  /** Ordered by bucket and then by key, every bucket's records still come in key order. */
  lemma {:induction false} GroupOfChain(rs: seq<KVRecord>, k: nat, b: nat, count: nat)
    requires count > 0
    ensures Group(Chain(rs, k, count), b, count) == if b < k then Group(rs, b, count) else []
  {
    if k > 0 {
      var chain, group := Chain(rs, k - 1, count), Group(rs, k - 1, count);
      GroupOfChain(rs, k - 1, b, count);
      GroupOfGroup(rs, k - 1, b, count);
      GroupJoin(chain, group, Group(chain, b, count), Group(group, b, count), b, count);
      if b < k - 1 {
        assert Group(rs, b, count) + [] == Group(rs, b, count);
      } else if b == k - 1 {
        assert [] + group == group;
      }
    }
  }

  lemma GroupJoin(x: seq<KVRecord>, y: seq<KVRecord>, gx: seq<KVRecord>, gy: seq<KVRecord>, b: nat, count: nat)
    requires count > 0 && gx == Group(x, b, count) && gy == Group(y, b, count)
    ensures Group(x + y, b, count) == gx + gy
  {
    GroupAppend(x, y, b, count);
  }
}
