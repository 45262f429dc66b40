/** structures/linkedlist.go: the fused list together with the sources it fuses,
    and the set and the priority queue built on it. */
module LinkedLists {
  import opened Words
  import opened Grids
  import opened FusedLists
  import opened Results
  import opened Sets
  import opened Tables
  import Runs
  import Space

  function Inserted<T>(list: seq<T>, index: nat, value: T): seq<T>
    requires index <= |list|
  {
    list[..index] + [value] + list[index..]
  }

  function Removed<T>(list: seq<T>, index: nat): seq<T>
    requires index < |list|
  {
    list[..index] + list[index + 1..]
  }

  /** The grid's projections are the sources. */
  ghost predicate Fuses<T>(g: Grid<T>, sources: seq<seq<T>>) {
    && Wide(g, |sources|) && Tight(g)
    && forall s {:trigger sources[s]} :: 0 <= s < |sources| ==> Project(g, s) == sources[s]
  }

  lemma InsertFuses<T>(g: Grid<T>, sources: seq<seq<T>>, s: nat, k: nat, x: T)
    requires Fuses(g, sources) && s < |sources| && k <= |sources[s]|
    ensures k <= |Project(g, s)|
    ensures Fuses(Insert(g, |sources|, s, k, x), sources[s := Inserted(sources[s], k, x)])
    ensures |g| <= |Insert(g, |sources|, s, k, x)| <= |g| + 1
  {
    InsertMeaning(g, |sources|, s, k, x);
    InsertTight(g, |sources|, s, k, x);
  }

  lemma DeleteFuses<T(!new)>(ops: XorOps<T>, g: Grid<T>, sources: seq<seq<T>>, s: nat, k: nat)
    requires Lawful(ops) && Fuses(g, sources) && s < |sources| && k < |sources[s]|
    ensures k < |Project(g, s)|
    ensures var h := DeleteAs(ops, g, |sources|, s, k, sources[s][k]);
            && Fuses(h, sources[s := Removed(sources[s], k)]) && |g| - 2 <= |h|
            && h == Grids.Delete(g, |sources|, s, k)
  {
    DeleteMeaning(g, |sources|, s, k);
    DeleteTight(g, |sources|, s, k);
    DeleteAsStored(ops, g, |sources|, s, k);
  }

  lemma {:induction false} RecordsAre<T>(g: Grid<T>, sources: seq<seq<T>>, k: nat)
    requires Fuses(g, sources) && k <= |sources|
    ensures Space.Records(g, k) == Runs.Elements(sources[..k])
  {
    if k > 0 {
      RecordsAre(g, sources, k - 1);
      assert sources[..k][..k - 1] == sources[..k - 1];
      assert Project(g, k - 1) == sources[k - 1];
    }
  }

  ghost function InUse<T>(sources: seq<seq<T>>): set<nat> {
    set s: nat | s < |sources| && sources[s] != []
  }

  /** At least the longest source; at most all elements, less one for every source in use after the first. */
  lemma NodesBounded<T>(g: Grid<T>, sources: seq<seq<T>>)
    requires Fuses(g, sources)
    ensures forall s :: 0 <= s < |sources| ==> |sources[s]| <= |g|
    ensures g == [] <==> Runs.Elements(sources) == 0
    ensures g != [] ==> |InUse(sources)| > 0 && |g| <= Runs.Elements(sources) - |InUse(sources)| + 1
  {
    Space.SpaceBound(g, |sources|);
    RecordsAre(g, sources, |sources|);
    assert sources[..|sources|] == sources;
    assert forall s :: 0 <= s < |sources| ==> |Project(g, s)| == |sources[s]|;
    assert InUse(sources) == Space.Occupied(g, |sources|);
  }

  /** NewFusedLinkedList */
  method NewFusedLinkedList<T(!new)>(ops: XorOps<T>, sourceCount: int) returns (r: Result<FusedLinkedList<T>>)
    requires Lawful(ops)
    ensures r.Ok? <==> sourceCount >= 2
    ensures r.Ok? ==> fresh(r.value) && fresh(r.value.list) && r.value.Valid()
    ensures r.Ok? ==> r.value.list.nodes == [] && r.value.sources == seq(sourceCount, _ => [])
  {
    if sourceCount < 2 {
      return Err(TooFewSources);
    }
    var f := new FusedLinkedList(ops, sourceCount);
    r := Ok(f);
  }

  class FusedLinkedList<T(!new)> {
    const list: FusedList<T>
    var sources: seq<seq<T>>

    ghost predicate Valid()
      reads this, list, list.nodes
    {
      list.Valid() && list.width == |sources| && Fuses(list.grid, sources)
    }

    constructor (ops: XorOps<T>, sourceCount: nat)
      requires Lawful(ops)
      ensures Valid() && fresh(list) && list.nodes == [] && list.grid == []
      ensures sources == seq(sourceCount, _ => [])
    {
      var made := new FusedList(ops, sourceCount);
      list := made;
      sources := seq(sourceCount, _ => []);
    }

    predicate ValidSource(source: int)
      reads `sources
    {
      0 <= source < |sources|
    }

    // The nodes in use are old ones or new ones.
    twostate predicate NodesGrown()
      reads list
    {
      forall k :: 0 <= k < |list.nodes| ==> list.nodes[k] in old(list.nodes) || fresh(list.nodes[k])
    }

    method Insert(source: int, index: int, value: T) returns (r: Result<()>)
      requires Valid()
      modifies this, list, list.nodes
      ensures Valid() && NodesGrown()
      ensures r.Ok? <==> old(ValidSource(source) && 0 <= index <= |sources[source]|)
      ensures r.Ok? ==> sources == old(sources)[source := Inserted(old(sources)[source], index, value)]
      ensures r.Ok? ==> |old(list.grid)| <= |list.grid| <= |old(list.grid)| + 1
      ensures r.Ok? ==> list.grid == Grids.Insert(old(list.grid), |sources|, source, index, value)
      ensures r.Err? ==> sources == old(sources) && list.grid == old(list.grid)
    {
      if !ValidSource(source) {
        return Err(SourceOutOfRange);
      }
      if index < 0 || index > |sources[source]| {
        return Err(IndexOutOfRange);
      }
      InsertFuses(list.grid, sources, source, index, value);
      list.Insert(source, index, value);
      sources := sources[source := Inserted(sources[source], index, value)];
      r := Ok(());
    }

    method Delete(source: int, index: int) returns (r: Result<T>)
      requires Valid()
      modifies this, list, list.nodes
      ensures Valid() && NodesGrown()
      ensures r.Ok? <==> old(ValidSource(source) && 0 <= index < |sources[source]|)
      ensures r.Ok? ==> r.value == old(sources)[source][index]
      ensures r.Ok? ==> sources == old(sources)[source := Removed(old(sources)[source], index)]
      ensures r.Ok? ==> |old(list.grid)| - 2 <= |list.grid|
      ensures r.Ok? ==> list.grid == Grids.Delete(old(list.grid), |sources|, source, index)
      ensures r.Err? ==> sources == old(sources) && list.grid == old(list.grid)
    {
      if !ValidSource(source) {
        return Err(SourceOutOfRange);
      }
      if index < 0 || index >= |sources[source]| {
        return Err(IndexOutOfRange);
      }
      var value := sources[source][index];
      Drop(source, index, value);
      sources := sources[source := Removed(sources[source], index)];
      r := Ok(value);
    }

    // The nodes' half of a Delete.
    method Drop(source: nat, index: nat, value: T)
      requires Valid() && source < |sources| && index < |sources[source]| && value == sources[source][index]
      modifies list, list.nodes
      ensures list.Valid() && list.width == |sources| && NodesGrown()
      ensures Fuses(list.grid, sources[source := Removed(sources[source], index)])
      ensures |old(list.grid)| - 2 <= |list.grid|
      ensures list.grid == Grids.Delete(old(list.grid), |sources|, source, index)
    {
      DeleteFuses(list.ops, list.grid, sources, source, index);
      list.Delete(source, index, value);
    }

    /** Takes out all the survivors' elements, in whatever order the map gives them. */
    method Peel(missing: nat, survivors: map<int, seq<T>>) returns (values: map<Node<T>, T>, error: Option<Error>)
      requires Valid()
      ensures error.None? <==> forall s :: s in survivors ==>
                ValidSource(s) && s != missing && |survivors[s]| == |sources[s]|
      ensures list.Covers(values)
      ensures error.None? && (forall s :: s in survivors ==> survivors[s] == sources[s])
              ==> list.Peeled(values, survivors.Keys)
    {
      values := list.CopyValues();
      var todo := survivors.Keys;
      ghost var done: set<int> := {};
      ghost var exact := forall s :: s in survivors ==> ValidSource(s) && survivors[s] == sources[s];
      while todo != {}
        invariant todo <= survivors.Keys && done == survivors.Keys - todo
        invariant list.Covers(values) && (exact ==> list.Peeled(values, done))
        invariant forall s :: s in done ==> ValidSource(s) && s != missing && |survivors[s]| == |sources[s]|
      {
        var source := AnyOf(todo);
        if !ValidSource(source) || source == missing {
          return values, Some(InvalidSurvivor);
        }
        var ok;
        values, ok := list.Subtract(values, source, survivors[source], done);
        if !ok {
          return values, Some(WrongSurvivorSize);
        }
        OneLess(survivors.Keys, todo, source);
        todo, done := todo - {source}, done + {source};
      }
      assert done == survivors.Keys;
      error := None;
    }

    /** Accepts exactly the survivors whose numbers and lengths fit, and gives back
        the missing list when they are what the sources hold. */
    method Recover(missing: int, survivors: map<int, seq<T>>) returns (r: Result<seq<T>>)
      requires Valid()
      ensures r.Ok? <==>
                && ValidSource(missing) && |survivors| == |sources| - 1
                && forall s :: s in survivors ==> ValidSource(s) && s != missing && |survivors[s]| == |sources[s]|
      ensures r.Ok? && (forall s :: s in survivors ==> survivors[s] == sources[s]) ==> r.value == sources[missing]
    {
      if !ValidSource(missing) {
        return Err(SourceOutOfRange);
      }
      if |survivors| != |sources| - 1 {
        return Err(WrongSurvivorCount);
      }
      var values, error := Peel(missing, survivors);
      if error.Some? {
        return Err(error.value);
      }
      assert |survivors.Keys| == |survivors|;
      OthersComplete(|sources|, missing, survivors.Keys);
      var out := list.Collect(values, missing, survivors.Keys);
      r := Ok(out);
    }

    method NodeCount() returns (count: nat)
      requires Valid()
      ensures forall s :: 0 <= s < |sources| ==> |sources[s]| <= count
      ensures count == 0 <==> Runs.Elements(sources) == 0
      ensures count > 0 ==> |InUse(sources)| > 0 && count <= Runs.Elements(sources) - |InUse(sources)| + 1
    {
      count := list.NodeCount();
      NodesBounded(list.grid, sources);
    }
  }

  // ----- the set

  ghost predicate Distinct<T>(list: seq<T>) {
    forall i, j :: 0 <= i < j < |list| ==> list[i] != list[j]
  }

  ghost function Elements<T>(list: seq<T>): set<T> {
    set x | x in list
  }

  lemma RemovedDistinct<T>(list: seq<T>, index: nat)
    requires Distinct(list) && index < |list|
    ensures Distinct(Removed(list, index)) && Elements(Removed(list, index)) == Elements(list) - {list[index]}
  {
    var rest := Removed(list, index);
    assert forall i :: 0 <= i < |rest| ==> rest[i] == list[if i < index then i else i + 1];
    assert forall i :: 0 <= i < |list| && i != index ==> list[i] == rest[if i < index then i else i - 1];
  }

  lemma AddedDistinct<T>(list: seq<T>, value: T)
    requires Distinct(list) && value !in list
    ensures Distinct(list + [value]) && Elements(list + [value]) == Elements(list) + {value}
    ensures Inserted(list, |list|, value) == list + [value]
  {
    assert forall x :: x in list + [value] <==> x in list || x == value;
  }

  class FusedSet<T(==,!new)> {
    const base: FusedLinkedList<T>

    ghost predicate Valid()
      reads base, base.list, base.list.nodes
    {
      base.Valid() && forall s :: 0 <= s < |base.sources| ==> Distinct(base.sources[s])
    }

    constructor (ops: XorOps<T>, sourceCount: nat)
      requires Lawful(ops)
      ensures Valid() && fresh(base) && fresh(base.list) && base.list.nodes == []
      ensures base.sources == seq(sourceCount, _ => [])
    {
      var made := new FusedLinkedList(ops, sourceCount);
      base := made;
    }

    // The position of a value, or the length of the list.
    method Find(source: int, value: T) returns (i: nat)
      ensures base.ValidSource(source) ==>
                && i <= |base.sources[source]| && value !in base.sources[source][..i]
                && (i < |base.sources[source]| ==> base.sources[source][i] == value)
    {
      i := 0;
      if !base.ValidSource(source) {
        return;
      }
      while i < |base.sources[source]| && base.sources[source][i] != value
        invariant i <= |base.sources[source]| && value !in base.sources[source][..i]
      {
        i := i + 1;
      }
    }

    method Add(source: int, value: T) returns (r: Result<()>)
      requires Valid()
      modifies base, base.list, base.list.nodes
      ensures Valid() && base.NodesGrown()
      ensures r.Ok? <==> old(base.ValidSource(source))
      ensures |base.sources| == |old(base.sources)|
      ensures forall s :: 0 <= s < |base.sources| ==>
                Elements(base.sources[s]) == Elements(old(base.sources)[s]) + if s == source then {value} else {}
      ensures r.Ok? ==> base.sources == if value in old(base.sources)[source] then old(base.sources)
                                        else old(base.sources)[source := old(base.sources)[source] + [value]]
    {
      if !base.ValidSource(source) {
        return Err(SourceOutOfRange);
      }
      var i := Find(source, value);
      ghost var list := base.sources[source];
      if i < |base.sources[source]| {
        assert value in list;
        return Ok(());
      }
      assert list[..i] == list;
      AddedDistinct(list, value);
      r := base.Insert(source, i, value);
    }

    method Remove(source: int, value: T) returns (found: bool, r: Result<()>)
      requires Valid()
      modifies base, base.list, base.list.nodes
      ensures Valid() && base.NodesGrown()
      ensures r.Ok? <==> old(base.ValidSource(source))
      ensures found <==> old(base.ValidSource(source) && value in base.sources[source])
      ensures |base.sources| == |old(base.sources)|
      ensures forall s :: 0 <= s < |base.sources| ==>
                Elements(base.sources[s]) == Elements(old(base.sources)[s]) - if s == source then {value} else {}
      ensures found ==> forall i :: 0 <= i < |old(base.sources)[source]| && old(base.sources)[source][i] == value ==>
                base.sources == old(base.sources)[source := Removed(old(base.sources)[source], i)]
      ensures !found ==> base.sources == old(base.sources)
    {
      if !base.ValidSource(source) {
        return false, Err(SourceOutOfRange);
      }
      var i := Find(source, value);
      ghost var list := base.sources[source];
      if i == |base.sources[source]| {
        assert list[..i] == list;
        return false, Ok(());
      }
      RemovedDistinct(list, i);
      var removed := base.Delete(source, i);
      found, r := true, Ok(());
    }
  }

  // ----- the priority queue

  lemma InsertedBag<T>(list: seq<T>, i: nat, x: T)
    requires i <= |list|
    ensures multiset(Inserted(list, i, x)) == multiset(list) + multiset{x}
  {
    assert list == list[..i] + list[i..];
  }

  lemma RemovedBag<T>(list: seq<T>, i: nat)
    requires i < |list|
    ensures multiset(Removed(list, i)) == multiset(list) - multiset{list[i]}
  {
    assert list == list[..i] + [list[i]] + list[i + 1..];
  }

  lemma InsertedSorted(list: seq<int>, i: nat, x: int)
    requires Sorted(list) && i <= |list|
    requires forall k :: 0 <= k < i ==> list[k] < x
    requires forall k :: i <= k < |list| ==> x <= list[k]
    ensures Sorted(Inserted(list, i, x))
  {
    var l := Inserted(list, i, x);
    assert forall k :: i < k < |l| ==> l[k] == list[k - 1];
  }

  lemma RemovedSorted(list: seq<int>, i: nat)
    requires Sorted(list) && i < |list|
    ensures Sorted(Removed(list, i))
  {
  }

  lemma LeastFirst(list: seq<int>)
    requires Sorted(list) && list != []
    ensures Sorted(Removed(list, 0)) && multiset(Removed(list, 0)) == multiset(list) - multiset{list[0]}
    ensures list[0] in list && forall x :: x in list ==> list[0] <= x
  {
    RemovedBag(list, 0);
    RemovedSorted(list, 0);
  }

  // Delete at index 0, and what it says about the lists.
  method DeleteFirst(base: FusedLinkedList<u64>, source: int) returns (r: Result<u64>)
    requires base.Valid()
    modifies base, base.list, base.list.nodes
    ensures base.Valid() && base.NodesGrown()
    ensures r.Ok? <==> old(base.ValidSource(source) && base.sources[source] != [])
    ensures r.Ok? ==> r.value == old(base.sources)[source][0]
    ensures base.sources == if r.Ok? then old(base.sources)[source := Removed(old(base.sources)[source], 0)]
                            else old(base.sources)
  {
    r := base.Delete(source, 0);
  }

  class FusedPriorityQueue {
    const base: FusedLinkedList<u64>

    ghost predicate Valid()
      reads base, base.list, base.list.nodes
    {
      base.Valid() && forall s :: 0 <= s < |base.sources| ==> Sorted(base.sources[s])
    }

    constructor (sourceCount: nat)
      ensures Valid() && fresh(base) && fresh(base.list) && base.list.nodes == []
      ensures base.sources == seq(sourceCount, _ => [])
    {
      WordOpsLawful();
      var made := new FusedLinkedList(WORD_OPS, sourceCount);
      base := made;
    }

    method Push(source: int, value: u64) returns (r: Result<()>)
      requires Valid()
      modifies base, base.list, base.list.nodes
      ensures Valid() && base.NodesGrown()
      ensures r.Ok? <==> old(base.ValidSource(source))
      ensures |base.sources| == |old(base.sources)|
      ensures forall s :: 0 <= s < |base.sources| ==>
                multiset(base.sources[s]) ==
                  multiset(old(base.sources)[s]) + if s == source then multiset{value} else multiset{}
    {
      if !base.ValidSource(source) {
        return Err(SourceOutOfRange);
      }
      var index := Search(base.sources[source], value);
      InsertedBag(base.sources[source], index, value);
      InsertedSorted(base.sources[source], index, value);
      r := base.Insert(source, index, value);
    }

    /** The least element of the source goes, and nothing else does. */
    method PopMin(source: int) returns (r: Result<u64>)
      requires Valid()
      modifies base, base.list, base.list.nodes
      ensures Valid() && base.NodesGrown()
      ensures r.Ok? <==> old(base.ValidSource(source) && base.sources[source] != [])
      ensures |base.sources| == |old(base.sources)|
      ensures r.Ok? ==> r.value in old(base.sources)[source]
      ensures r.Ok? ==> forall x :: x in old(base.sources)[source] ==> r.value <= x
      ensures forall s :: 0 <= s < |base.sources| ==>
                multiset(base.sources[s]) ==
                  multiset(old(base.sources)[s]) - if r.Ok? && s == source then multiset{r.value} else multiset{}
    {
      if base.ValidSource(source) && base.sources[source] != [] {
        LeastFirst(base.sources[source]);
      }
      r := DeleteFirst(base, source);
    }
  }
}
