/** structures/queue.go: bounded circular queues of equal capacity, fused slot by slot. */
module Queues {
  import opened Words
  import opened Grids
  import opened Results
  import opened Sets

  /** The slot i places after head. */
  function Slot(head: nat, i: nat, capacity: nat): (p: nat)
    requires capacity > 0
    ensures p < capacity
  {
    (head + i) % capacity
  }

  /** How many places slot p is after head. */
  function Offset(head: nat, p: nat, capacity: nat): (i: nat)
    requires head < capacity && p < capacity
    ensures i < capacity
  {
    if p >= head then p - head else p - head + capacity
  }

  lemma Wraps(x: nat, capacity: nat)
    requires x < 2 * capacity
    ensures x % capacity == if x < capacity then x else x - capacity
  {
    if x >= capacity {
      assert x == capacity + (x - capacity);
    }
  }

  /** Slot and Offset are inverse. */
  lemma SlotOffset(head: nat, i: nat, p: nat, capacity: nat)
    requires head < capacity && i < capacity && p < capacity
    ensures Slot(head, i, capacity) == p <==> Offset(head, p, capacity) == i
  {
    Wraps(head + i, capacity);
  }

  lemma NextSlot(head: nat, i: nat, capacity: nat)
    requires head < capacity && i < capacity
    ensures (Slot(head, i, capacity) + 1) % capacity == Slot(head, i + 1, capacity)
    ensures Slot((head + 1) % capacity, i, capacity) == Slot(head, i + 1, capacity)
  {
    Wraps(head + i, capacity);
    Wraps(head + 1, capacity);
    if head + i + 1 == 2 * capacity {
      assert false;
    }
    Wraps(head + i + 1, capacity);
    Wraps(Slot(head, i, capacity) + 1, capacity);
    Wraps((head + 1) % capacity + i, capacity);
  }

  /** The elements of a queue, first to last. */
  function Content<T>(row: seq<T>, head: nat, count: nat): (list: seq<T>)
    requires |row| > 0
  {
    seq(count, i requires 0 <= i < count => row[Slot(head, i, |row|)])
  }

  /** Slots outside the queue are zero. */
  ghost predicate ZeroOutside<T>(zero: T, row: seq<T>, head: nat, count: nat) {
    && head < |row| && count <= |row|
    && forall p :: 0 <= p < |row| && Offset(head, p, |row|) >= count ==> row[p] == zero
  }

  lemma EnqueueContent<T>(zero: T, row: seq<T>, head: nat, count: nat, x: T)
    requires ZeroOutside(zero, row, head, count) && count < |row|
    ensures var p := Slot(head, count, |row|);
            && row[p] == zero
            && ZeroOutside(zero, row[p := x], head, count + 1)
            && Content(row[p := x], head, count + 1) == Content(row, head, count) + [x]
  {
    var n, p := |row|, Slot(head, count, |row|);
    SlotOffset(head, count, p, n);
    forall i | 0 <= i < count ensures Slot(head, i, n) != p {
      SlotOffset(head, i, p, n);
    }
    forall q | 0 <= q < n && q != p ensures Offset(head, q, n) != count {
      SlotOffset(head, count, q, n);
    }
  }

  lemma DequeueContent<T>(zero: T, row: seq<T>, head: nat, count: nat)
    requires ZeroOutside(zero, row, head, count) && count > 0
    ensures var later := (head + 1) % |row|;
            && ZeroOutside(zero, row[head := zero], later, count - 1)
            && row[head] == Content(row, head, count)[0]
            && Content(row[head := zero], later, count - 1) == Content(row, head, count)[1..]
  {
    var n, later := |row|, (head + 1) % |row|;
    Wraps(head, n);
    Wraps(head + 1, n);
    forall i | 0 <= i < count - 1
      ensures Slot(later, i, n) == Slot(head, i + 1, n) && Slot(head, i + 1, n) != head
    {
      NextSlot(head, i, n);
      SlotOffset(head, i + 1, head, n);
    }
  }

  // ----- the fusion

  /** What the sources hold in physical slot p, without the sources in done. */
  function Slice<T>(zero: T, rows: seq<seq<T>>, p: nat, done: set<int>): seq<T>
    requires forall s :: 0 <= s < |rows| ==> p < |rows[s]|
  {
    seq(|rows|, s requires 0 <= s < |rows| => if s in done then zero else rows[s][p])
  }

  ghost predicate Square<T>(rows: seq<seq<T>>, n: nat) {
    forall s :: 0 <= s < |rows| ==> |rows[s]| == n
  }

  /** Each slot is the exclusive-or of that slot over the sources outside done. */
  ghost predicate Fuses<T>(ops: XorOps<T>, fusion: seq<T>, rows: seq<seq<T>>, done: set<int>) {
    && Square(rows, |fusion|)
    && forall p :: 0 <= p < |fusion| ==> fusion[p] == Fold(ops, Slice(ops.zero, rows, p, done))
  }

  lemma SetSlot<T(!new)>(ops: XorOps<T>, fusion: seq<T>, rows: seq<seq<T>>, s: nat, p: nat, x: T, delta: T)
    requires Lawful(ops) && Fuses(ops, fusion, rows, {}) && s < |rows| && p < |fusion|
    requires (rows[s][p] == ops.zero && x == delta) || (rows[s][p] == delta && x == ops.zero)
    ensures Fuses(ops, fusion[p := Xor(ops, fusion[p], delta)], rows[s := rows[s][p := x]], {})
  {
    var now := rows[s := rows[s][p := x]];
    var w := Slice(ops.zero, rows, p, {});
    FoldReplace(ops, w, s, x);
    forall q | 0 <= q < |fusion|
      ensures Slice(ops.zero, now, q, {}) == if q == p then w[s := x] else Slice(ops.zero, rows, q, {})
    {
    }
  }

  /** Taking a queue's elements out, slot by slot, takes out its whole row. */
  lemma TakeOut<T(!new)>(ops: XorOps<T>, fusion: seq<T>, less: seq<T>, rows: seq<seq<T>>, s: nat, head: nat,
                         count: nat, done: set<int>)
    requires Lawful(ops) && Fuses(ops, fusion, rows, done) && s < |rows| && s !in done && |less| == |fusion|
    requires ZeroOutside(ops.zero, rows[s], head, count)
    requires forall p :: 0 <= p < |fusion| ==>
               less[p] == if Offset(head, p, |fusion|) < count then Xor(ops, fusion[p], rows[s][p]) else fusion[p]
    ensures Fuses(ops, less, rows, done + {s})
  {
    forall p | 0 <= p < |fusion| ensures less[p] == Fold(ops, Slice(ops.zero, rows, p, done + {s})) {
      var w := Slice(ops.zero, rows, p, done);
      FoldReplace(ops, w, s, ops.zero);
      assert Slice(ops.zero, rows, p, done + {s}) == w[s := ops.zero];
      if Offset(head, p, |fusion|) >= count {
        assert w[s := ops.zero] == w;
      }
    }
  }

  lemma OnlyRow<T(!new)>(ops: XorOps<T>, fusion: seq<T>, rows: seq<seq<T>>, missing: nat, done: set<int>)
    requires Lawful(ops) && Fuses(ops, fusion, rows, done) && missing < |rows| && missing !in done
    requires forall s :: 0 <= s < |rows| && s != missing ==> s in done
    ensures fusion == rows[missing]
  {
    forall p | 0 <= p < |fusion| ensures fusion[p] == rows[missing][p] {
      FoldOnly(ops, Slice(ops.zero, rows, p, done), missing);
    }
  }

  class FusedQueue<T(!new)> {
    const ops: XorOps<T>
    var sources: seq<seq<T>>
    var fusion: seq<T>
    var heads: seq<int>
    var tails: seq<int>
    var counts: seq<int>

    ghost predicate SourceValid(s: nat)
      reads this
    {
      && s < |heads| == |tails| == |counts| == |sources|
      && 0 <= heads[s] < |fusion| && 0 <= counts[s] <= |fusion| == |sources[s]|
      && tails[s] == Slot(heads[s], counts[s], |fusion|)
      && ZeroOutside(ops.zero, sources[s], heads[s], counts[s])
    }

    ghost predicate Valid()
      reads this
    {
      && Lawful(ops) && |fusion| > 0 && |heads| == |tails| == |counts| == |sources|
      && (forall s :: 0 <= s < |sources| ==> SourceValid(s))
      && Fuses(ops, fusion, sources, {})
    }

    /** What Source(s) reports. */
    ghost function Queue(s: nat): seq<T>
      requires Valid() && s < |sources|
      reads this
    {
      assert SourceValid(s);
      Content(sources[s], heads[s], counts[s])
    }

    constructor (ops: XorOps<T>, sourceCount: nat, capacity: nat)
      requires Lawful(ops) && capacity > 0
      ensures Valid() && |sources| == sourceCount && |fusion| == capacity
      ensures forall s :: 0 <= s < sourceCount ==> Queue(s) == []
    {
      this.ops := ops;
      this.sources := seq(sourceCount, _ => seq(capacity, _ => ops.zero));
      this.fusion := seq(capacity, _ => ops.zero);
      this.heads, this.tails := seq(sourceCount, _ => 0), seq(sourceCount, _ => 0);
      this.counts := seq(sourceCount, _ => 0);
      new;
      forall p | 0 <= p < capacity ensures Fold(ops, Slice(ops.zero, sources, p, {})) == ops.zero {
        FoldZeros(ops, Slice(ops.zero, sources, p, {}));
      }
      Wraps(0, capacity);
      assert forall s :: 0 <= s < |sources| ==> SourceValid(s);
    }

    predicate ValidSource(source: int)
      reads `sources
    {
      0 <= source < |sources|
    }

    // No physical slot but p has changed.
    twostate predicate OneSlot(p: nat)
      reads this
    {
      |fusion| == |old(fusion)| && forall q :: 0 <= q < |fusion| && q != p ==> fusion[q] == old(fusion)[q]
    }

    method Enqueue(source: int, value: T) returns (r: Result<()>)
      requires Valid()
      modifies this
      ensures Valid() && |sources| == |old(sources)| && |fusion| == |old(fusion)|
      ensures r.Ok? <==> old(ValidSource(source)) && |old(Queue(source))| < |fusion|
      ensures forall s :: 0 <= s < |sources| ==>
                Queue(s) == old(Queue(s)) + if r.Ok? && s == source then [value] else []
      ensures heads == old(heads)
      ensures r.Ok? ==> OneSlot((old(heads[source]) + |old(Queue(source))|) % |fusion|)
    {
      if !ValidSource(source) {
        return Err(SourceOutOfRange);
      }
      assert SourceValid(source);
      if counts[source] == |fusion| {
        return Err(QueueFull);
      }
      var index := tails[source];
      EnqueueContent(ops.zero, sources[source], heads[source], counts[source], value);
      SetSlot(ops, fusion, sources, source, index, value, value);
      NextSlot(heads[source], counts[source], |fusion|);
      sources := sources[source := sources[source][index := value]];
      fusion := fusion[index := Xor(ops, fusion[index], value)];
      tails := tails[source := (index + 1) % |fusion|];
      counts := counts[source := counts[source] + 1];
      assert SourceValid(source);
      OthersKept(source);
      r := Ok(());
    }

    // The other sources are as they were.
    twostate lemma OthersKept(source: nat)
      requires old(Valid()) && source < |sources| && |fusion| == |old(fusion)|
      requires |sources| == |old(sources)| && |heads| == |tails| == |counts| == |sources|
      requires forall s :: 0 <= s < |sources| && s != source ==>
                 && sources[s] == old(sources)[s] && heads[s] == old(heads)[s]
                 && tails[s] == old(tails)[s] && counts[s] == old(counts)[s]
      ensures forall s :: 0 <= s < |sources| && s != source ==> SourceValid(s)
    {
      forall s | 0 <= s < |sources| && s != source ensures SourceValid(s) {
        assert old(SourceValid(s));
      }
    }

    method Dequeue(source: int) returns (r: Result<T>)
      requires Valid()
      modifies this
      ensures Valid() && |sources| == |old(sources)| && |fusion| == |old(fusion)|
      ensures r.Ok? <==> old(ValidSource(source)) && old(Queue(source)) != []
      ensures r.Ok? ==> r.value == old(Queue(source))[0]
      ensures forall s :: 0 <= s < |sources| ==>
                Queue(s) == if r.Ok? && s == source then old(Queue(s))[1..] else old(Queue(s))
      ensures heads == if r.Ok? then old(heads)[source := (old(heads)[source] + 1) % |fusion|] else old(heads)
      ensures r.Ok? ==> 0 <= old(heads)[source] && OneSlot(old(heads)[source])
    {
      if !ValidSource(source) {
        return Err(SourceOutOfRange);
      }
      assert SourceValid(source);
      if counts[source] == 0 {
        return Err(SourceEmpty);
      }
      var index := heads[source];
      var value := sources[source][index];
      DequeueContent(ops.zero, sources[source], index, counts[source]);
      SetSlot(ops, fusion, sources, source, index, ops.zero, value);
      NextSlot(index, counts[source] - 1, |fusion|);
      sources := sources[source := sources[source][index := ops.zero]];
      fusion := fusion[index := Xor(ops, fusion[index], value)];
      heads := heads[source := (index + 1) % |fusion|];
      counts := counts[source := counts[source] - 1];
      assert SourceValid(source);
      OthersKept(source);
      r := Ok(value);
    }

    // Takes one survivor's elements out of the physical slots.
    method Subtract(before: seq<T>, source: nat, list: seq<T>, ghost done: set<int>) returns (physical: seq<T>)
      requires Valid() && source < |sources| && |list| == counts[source] && |before| == |fusion| && source !in done
      ensures |physical| == |fusion|
      ensures Fuses(ops, before, sources, done) && list == Queue(source) ==>
                Fuses(ops, physical, sources, done + {source})
    {
      assert SourceValid(source);
      ghost var head := heads[source];
      physical := before;
      for i := 0 to |list|
        invariant |physical| == |fusion|
        invariant forall p :: 0 <= p < |fusion| ==>
                    var j := Offset(head, p, |fusion|);
                    physical[p] == if j < i then Xor(ops, before[p], list[j]) else before[p]
      {
        var p := (heads[source] + i) % |physical|;
        forall q | 0 <= q < |fusion| ensures q == p <==> Offset(head, q, |fusion|) == i {
          SlotOffset(head, i, q, |fusion|);
        }
        physical := physical[p := Xor(ops, physical[p], list[i])];
      }
      if Fuses(ops, before, sources, done) && list == Queue(source) {
        forall p | 0 <= p < |fusion| && Offset(head, p, |fusion|) < |list|
          ensures list[Offset(head, p, |fusion|)] == sources[source][p]
        {
          SlotOffset(head, Offset(head, p, |fusion|), p, |fusion|);
        }
        TakeOut(ops, before, physical, sources, source, head, |list|, done);
      }
    }

    /** Accepts exactly the survivors whose numbers and lengths fit, and gives back
        the missing queue in order when they are what the sources hold. */
    method Recover(missing: int, survivors: map<int, seq<T>>) returns (r: Result<seq<T>>)
      requires Valid()
      ensures r.Ok? <==>
                && ValidSource(missing) && |survivors| == |sources| - 1
                && forall s :: s in survivors ==> ValidSource(s) && s != missing && |survivors[s]| == |Queue(s)|
      ensures r.Ok? && (forall s :: s in survivors ==> survivors[s] == Queue(s)) ==> r.value == Queue(missing)
    {
      if !ValidSource(missing) {
        return Err(SourceOutOfRange);
      }
      if |survivors| != |sources| - 1 {
        return Err(WrongSurvivorCount);
      }
      var physical, error := Peel(missing, survivors);
      if error.Some? {
        return Err(error.value);
      }
      assert |survivors.Keys| == |survivors|;
      OthersComplete(|sources|, missing, survivors.Keys);
      if forall s :: s in survivors ==> survivors[s] == Queue(s) {
        OnlyRow(ops, physical, sources, missing, survivors.Keys);
      }
      assert SourceValid(missing);
      var out := ReadOut(physical, missing);
      r := Ok(out);
    }

    method Peel(missing: nat, survivors: map<int, seq<T>>) returns (physical: seq<T>, error: Option<Error>)
      requires Valid()
      ensures error.None? <==> forall s :: s in survivors ==>
                ValidSource(s) && s != missing && |survivors[s]| == |Queue(s)|
      ensures |physical| == |fusion|
      ensures error.None? && (forall s :: s in survivors ==> survivors[s] == Queue(s))
              ==> Fuses(ops, physical, sources, survivors.Keys)
    {
      physical := fusion;
      var todo := survivors.Keys;
      ghost var done: set<int> := {};
      ghost var exact := forall s :: s in survivors ==> ValidSource(s) && survivors[s] == Queue(s);
      while todo != {}
        invariant todo <= survivors.Keys && done == survivors.Keys - todo
        invariant |physical| == |fusion| && (exact ==> Fuses(ops, physical, sources, done))
        invariant forall s :: s in done ==> ValidSource(s) && s != missing && |survivors[s]| == |Queue(s)|
      {
        var source := AnyOf(todo);
        if !ValidSource(source) || source == missing {
          return physical, Some(InvalidSurvivor);
        }
        assert SourceValid(source);
        if |survivors[source]| != counts[source] {
          return physical, Some(WrongSurvivorSize);
        }
        physical := Subtract(physical, source, survivors[source], done);
        OneLess(survivors.Keys, todo, source);
        todo, done := todo - {source}, done + {source};
      }
      assert done == survivors.Keys;
      error := None;
    }

    method ReadOut(physical: seq<T>, missing: nat) returns (out: seq<T>)
      requires Valid() && missing < |sources| && |physical| == |fusion| && SourceValid(missing)
      ensures out == Content(physical, heads[missing], counts[missing])
    {
      out := [];
      for i := 0 to counts[missing]
        invariant out == Content(physical, heads[missing], i)
      {
        out := out + [physical[(heads[missing] + i) % |physical|]];
      }
    }
  }
}
