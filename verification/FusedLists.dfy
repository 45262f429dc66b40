/** The bit-field fused list as a doubly linked list in the heap
    (structures/linkedlist.go, structures/kvhashtable.go). */
module FusedLists {
  import opened Words
  import opened Grids
  import opened Sets

  /** anyBit */
  method AnyBit(bits: seq<bool>) returns (any: bool)
    ensures any <==> exists s :: 0 <= s < |bits| && bits[s]
  {
    for s := 0 to |bits|
      invariant forall t :: 0 <= t < s ==> !bits[t]
    {
      if bits[s] {
        return true;
      }
    }
    return false;
  }

  /** disjoint */
  method DisjointBits(a: seq<bool>, b: seq<bool>) returns (apart: bool)
    requires |a| == |b|
    ensures apart <==> forall s :: 0 <= s < |a| ==> !(a[s] && b[s])
  {
    for s := 0 to |a|
      invariant forall t :: 0 <= t < s ==> !(a[t] && b[t])
    {
      if a[s] && b[s] {
        return false;
      }
    }
    return true;
  }

  lemma BitsOfBlank<T>(c: Column<T>)
    ensures Blank(c) <==> forall s :: 0 <= s < |Bits(c)| ==> !Bits(c)[s]
  {
    assert forall s :: 0 <= s < |c| ==> Bits(c)[s] == c[s].Some?;
  }

  lemma BitsOfDisjoint<T>(a: Column<T>, b: Column<T>)
    requires |a| == |b|
    ensures Disjoint(a, b) <==> forall s :: 0 <= s < |a| ==> !(Bits(a)[s] && Bits(b)[s])
  {
    assert forall s :: 0 <= s < |a| ==> Bits(a)[s] == a[s].Some?;
  }

  class Node<T(!new)> {
    var value: T
    var bits: seq<bool>
    var previous: Node?<T>
    var next: Node?<T>
    ghost const owner: FusedList<T>

    constructor (ghost owner: FusedList<T>, zero: T, width: nat, next: Node?<T>)
      ensures this.owner == owner && value == zero && this.next == next && previous == null
      ensures bits == seq(width, _ => false)
    {
      this.owner := owner;
      this.value := zero;
      this.bits := seq(width, _ => false);
      this.next := next;
      this.previous := null;
    }
  }

  ghost function RefIn<T(!new)>(nodes: seq<Node<T>>, i: int): Node?<T> {
    if 0 <= i < |nodes| then nodes[i] else null
  }

  class FusedList<T(!new)> {
    const ops: XorOps<T>
    const width: nat
    var head: Node?<T>
    var tail: Node?<T>
    ghost var nodes: seq<Node<T>>
    ghost var grid: Grid<T>

    // The node at position i, or null outside the list.
    ghost function Ref(i: int): Node?<T>
      reads `nodes
    {
      RefIn(nodes, i)
    }

    /** The pointers spell out nodes, in both directions. */
    ghost predicate Linked()
      reads `head, `tail, `nodes, nodes`previous, nodes`next
    {
      && (forall i, j :: 0 <= i < j < |nodes| ==> nodes[i] != nodes[j])
      && (forall i :: 0 <= i < |nodes| ==> nodes[i].owner == this)
      && (forall i {:trigger nodes[i].previous} :: 0 <= i < |nodes| ==> nodes[i].previous == Ref(i - 1))
      && (forall i {:trigger nodes[i].next} :: 0 <= i < |nodes| ==> nodes[i].next == Ref(i + 1))
      && head == Ref(0) && tail == Ref(|nodes| - 1)
    }

    /** Every node stores the exclusive-or of its column, and its bits say which records that is. */
    ghost predicate Carries()
      reads `nodes, `grid, nodes`value, nodes`bits
    {
      && |nodes| == |grid| && Wide(grid, width)
      && (forall i {:trigger nodes[i].value} :: 0 <= i < |nodes| ==> nodes[i].value == Payload(ops, grid[i]))
      && (forall i {:trigger nodes[i].bits} :: 0 <= i < |nodes| ==> nodes[i].bits == Bits(grid[i]))
    }

    ghost predicate Valid()
      reads this, nodes
    {
      Linked() && Carries() && Lawful(ops)
    }

    constructor (ops: XorOps<T>, width: nat)
      requires Lawful(ops)
      ensures Valid() && grid == [] && nodes == [] && this.ops == ops && this.width == width
    {
      this.ops := ops;
      this.width := width;
      head, tail, nodes, grid := null, null, [], [];
    }

    // ----- list surgery: pointers only, whatever the nodes store

    method InsertBefore(ghost c: nat, next: Node?<T>) returns (node: Node<T>)
      requires Linked() && c <= |nodes| && next == Ref(c)
      modifies `head, `tail, `nodes, nodes`previous, nodes`next
      ensures Linked() && fresh(node) && node.value == ops.zero && node.bits == seq(width, _ => false)
      ensures nodes == old(nodes)[..c] + [node] + old(nodes)[c..]
    {
      node := LinkBefore(c, next);
      ghost var was := nodes;
      nodes := nodes[..c] + [node] + nodes[c..];
      Spliced(was, c, node);
    }

    lemma Spliced(was: seq<Node<T>>, c: nat, node: Node<T>)
      requires c <= |was| && nodes == was[..c] + [node] + was[c..]
      requires node !in was && node.owner == this
      requires forall i, j :: 0 <= i < j < |was| ==> was[i] != was[j]
      requires forall i :: 0 <= i < |was| ==> was[i].owner == this
      requires node.previous == RefIn(was, c - 1) && node.next == RefIn(was, c)
      requires head == (if c == 0 then node else RefIn(was, 0))
      requires tail == (if c == |was| then node else RefIn(was, |was| - 1))
      requires forall i {:trigger was[i].next} :: 0 <= i < |was| ==>
                 was[i].next == if i == c - 1 then node else RefIn(was, i + 1)
      requires forall i {:trigger was[i].previous} :: 0 <= i < |was| ==>
                 was[i].previous == if i == c then node else RefIn(was, i - 1)
      ensures Linked()
    {
      assert forall i :: 0 <= i < c ==> nodes[i] == was[i];
      assert forall i :: c < i < |nodes| ==> nodes[i] == was[i - 1];
      assert forall i {:trigger nodes[i].previous} :: 0 <= i < |nodes| ==> nodes[i].previous == Ref(i - 1);
      assert forall i {:trigger nodes[i].next} :: 0 <= i < |nodes| ==> nodes[i].next == Ref(i + 1);
    }

    // The pointer writes of InsertBefore, which adds the ghost bookkeeping.
    method LinkBefore(ghost c: nat, next: Node?<T>) returns (node: Node<T>)
      requires Linked() && c <= |nodes| && next == Ref(c)
      modifies `head, `tail, nodes`previous, nodes`next
      ensures fresh(node) && node.owner == this
      ensures node.value == ops.zero && node.bits == seq(width, _ => false)
      ensures node.previous == Ref(c - 1) && node.next == Ref(c)
      ensures head == (if c == 0 then node else Ref(0)) && tail == (if c == |nodes| then node else Ref(|nodes| - 1))
      ensures forall i {:trigger nodes[i].next} :: 0 <= i < |nodes| ==>
                nodes[i].next == if i == c - 1 then node else Ref(i + 1)
      ensures forall i {:trigger nodes[i].previous} :: 0 <= i < |nodes| ==>
                nodes[i].previous == if i == c then node else Ref(i - 1)
    {
      node := new Node(this, ops.zero, width, next);
      if next == null {
        node.previous := tail;
        if tail == null {
          head := node;
        } else {
          tail.next := node;
        }
        tail := node;
      } else {
        node.previous := next.previous;
        next.previous := node;
        if node.previous == null {
          head := node;
        } else {
          node.previous.next := node;
        }
      }
    }

    method RemoveNode(ghost i: nat, node: Node<T>)
      requires Linked() && i < |nodes| && node == nodes[i]
      modifies `head, `tail, `nodes, nodes`previous, nodes`next
      ensures Linked() && nodes == old(nodes)[..i] + old(nodes)[i + 1..]
    {
      Unlink(i, node);
      ghost var was := nodes;
      nodes := nodes[..i] + nodes[i + 1..];
      CutOut(was, i);
    }

    lemma CutOut(was: seq<Node<T>>, i: nat)
      requires i < |was| && nodes == was[..i] + was[i + 1..]
      requires forall j, k :: 0 <= j < k < |was| ==> was[j] != was[k]
      requires forall j :: 0 <= j < |was| ==> was[j].owner == this
      requires head == RefIn(was, if i == 0 then 1 else 0)
      requires tail == RefIn(was, if i == |was| - 1 then i - 1 else |was| - 1)
      requires forall j {:trigger was[j].next} :: 0 <= j < |was| && j != i ==>
                 was[j].next == RefIn(was, if j == i - 1 then i + 1 else j + 1)
      requires forall j {:trigger was[j].previous} :: 0 <= j < |was| && j != i ==>
                 was[j].previous == RefIn(was, if j == i + 1 then i - 1 else j - 1)
      ensures Linked()
    {
      assert forall j :: 0 <= j < i ==> nodes[j] == was[j];
      assert forall j :: i <= j < |nodes| ==> nodes[j] == was[j + 1];
      assert forall j {:trigger nodes[j].previous} :: 0 <= j < |nodes| ==> nodes[j].previous == Ref(j - 1);
      assert forall j {:trigger nodes[j].next} :: 0 <= j < |nodes| ==> nodes[j].next == Ref(j + 1);
    }

    // The pointer writes of RemoveNode.
    method Unlink(ghost i: nat, node: Node<T>)
      requires Linked() && i < |nodes| && node == nodes[i]
      modifies `head, `tail, nodes`previous, nodes`next
      ensures head == Ref(if i == 0 then 1 else 0)
      ensures tail == Ref(if i == |nodes| - 1 then i - 1 else |nodes| - 1)
      ensures forall j {:trigger nodes[j].next} :: 0 <= j < |nodes| && j != i ==>
                nodes[j].next == Ref(if j == i - 1 then i + 1 else j + 1)
      ensures forall j {:trigger nodes[j].previous} :: 0 <= j < |nodes| && j != i ==>
                nodes[j].previous == Ref(if j == i + 1 then i - 1 else j - 1)
    {
      if node.previous == null {
        head := node.next;
      } else {
        node.previous.next := node.next;
      }
      if node.next == null {
        tail := node.previous;
      } else {
        node.next.previous := node.previous;
      }
    }

    // ----- merging

    method Merge(ghost i: nat, left: Node<T>, right: Node<T>) returns (r: Node<T>)
      requires Valid() && i + 1 < |nodes| && left == nodes[i] && right == nodes[i + 1]
      requires Disjoint(grid[i], grid[i + 1])
      modifies this, nodes
      ensures Valid() && r == left
      ensures nodes == old(nodes)[..i + 1] + old(nodes)[i + 2..] && grid == JoinAt(old(grid), i)
    {
      Absorb(i, left, right);
      TakeOut(i + 1, right);
      r := left;
    }

    // What Merge does to the node it keeps.
    method Absorb(ghost i: nat, left: Node<T>, right: Node<T>)
      requires Valid() && i + 1 < |nodes| && left == nodes[i] && right == nodes[i + 1]
      requires Disjoint(grid[i], grid[i + 1])
      modifies left`value, left`bits, `grid
      ensures Valid() && grid == old(grid)[i := Join(old(grid)[i], old(grid)[i + 1])]
    {
      left.value := Xor(ops, left.value, right.value);
      ghost var bits := left.bits;
      for source := 0 to |left.bits|
        modifies left`bits
        invariant |left.bits| == width
        invariant forall s :: 0 <= s < width ==>
                    left.bits[s] == if s < source then bits[s] || right.bits[s] else bits[s]
      {
        left.bits := left.bits[source := left.bits[source] || right.bits[source]];
      }
      PayloadJoin(ops, grid[i], grid[i + 1]);
      assert left.bits == Bits(Join(grid[i], grid[i + 1]));
      grid := grid[i := Join(grid[i], grid[i + 1])];
    }

    // The payload of node i counts only if it carries a bit.
    ghost predicate CarriesBut(i: nat)
      reads `nodes, `grid, nodes`value, nodes`bits
    {
      && i < |nodes| == |grid| && Wide(grid, width)
      && (forall j {:trigger nodes[j].value} :: 0 <= j < |nodes| && (j != i || !Blank(grid[i])) ==>
            nodes[j].value == Payload(ops, grid[j]))
      && (forall j {:trigger nodes[j].bits} :: 0 <= j < |nodes| ==> nodes[j].bits == Bits(grid[j]))
    }

    method MergeNodes(ghost i: nat, start: Node<T>)
      requires Linked() && CarriesBut(i) && Lawful(ops) && start == nodes[i]
      modifies this, nodes
      ensures Valid() && grid == Grids.MergeNodes(old(grid), i)
      ensures forall k :: 0 <= k < |nodes| ==> nodes[k] in old(nodes)
    {
      var node: Node?<T> := start;
      ghost var j: nat := i;
      var any := AnyBit(node.bits);
      BitsOfBlank(grid[i]);
      if !any {
        var previous, next := node.previous, node.next;
        TakeOut(i, node);
        if previous != null {
          node, j := previous, i - 1;
        } else {
          node, j := next, 0;
        }
      }
      if node == null {
        return;
      }
      MergeAround(j, node);
    }

    // Takes out a node, whatever its payload.
    method TakeOut(ghost i: nat, node: Node<T>)
      requires Linked() && CarriesBut(i) && node == nodes[i]
      modifies this, nodes
      ensures Linked() && Carries() && grid == Without(old(grid), i)
      ensures nodes == old(nodes)[..i] + old(nodes)[i + 1..]
    {
      ghost var was, pieces := nodes, grid;
      RemoveNode(i, node);
      grid := Without(grid, i);
      forall j | 0 <= j < |nodes|
        ensures nodes[j].value == Payload(ops, grid[j]) && nodes[j].bits == Bits(grid[j]) && |grid[j]| == width
      {
        var k := if j < i then j else j + 1;
        assert nodes[j] == was[k] && grid[j] == pieces[k];
      }
    }

    // The two loops of MergeNodes.

    method Apart(ghost i: nat, left: Node<T>, right: Node<T>) returns (apart: bool)
      requires Valid() && i + 1 < |nodes| && left == nodes[i] && right == nodes[i + 1]
      ensures apart <==> Disjoint(grid[i], grid[i + 1])
    {
      apart := DisjointBits(left.bits, right.bits);
      BitsOfDisjoint(grid[i], grid[i + 1]);
    }

    method MergeLeft(ghost i: nat, start: Node<T>) returns (node: Node<T>, ghost j: nat)
      requires Valid() && i < |nodes| && start == nodes[i]
      modifies this, nodes
      ensures Valid() && j < |nodes| && node == nodes[j]
      ensures (grid, j) == Grids.MergeLeft(old(grid), i)
      ensures forall k :: 0 <= k < |nodes| ==> nodes[k] in old(nodes)
    {
      node, j := start, i;
      while node.previous != null
        invariant Valid() && j < |nodes| && node == nodes[j]
        invariant Grids.MergeLeft(grid, j) == Grids.MergeLeft(old(grid), i)
        invariant forall k :: 0 <= k < |nodes| ==> nodes[k] in old(nodes)
        decreases j
      {
        var apart := Apart(j - 1, node.previous, node);
        if !apart {
          break;
        }
        node := Merge(j - 1, node.previous, node);
        j := j - 1;
      }
    }

    method MergeRight(ghost i: nat, node: Node<T>)
      requires Valid() && i < |nodes| && node == nodes[i]
      modifies this, nodes
      ensures Valid() && grid == Grids.MergeRight(old(grid), i)
      ensures forall k :: 0 <= k < |nodes| ==> nodes[k] in old(nodes)
    {
      ghost var goal, was := Grids.MergeRight(grid, i), nodes;
      while node.next != null
        invariant Valid() && i < |nodes| && node == nodes[i]
        invariant Grids.MergeRight(grid, i) == goal
        invariant forall k :: 0 <= k < |nodes| ==> nodes[k] in was
        decreases |nodes|
      {
        var apart := Apart(i, node, node.next);
        if !apart {
          break;
        }
        var _ := Merge(i, node, node.next);
      }
    }

    method MergeAround(ghost i: nat, start: Node<T>)
      requires Valid() && i < |nodes| && start == nodes[i]
      modifies this, nodes
      ensures Valid() && grid == Grids.MergeAround(old(grid), i)
      ensures forall k :: 0 <= k < |nodes| ==> nodes[k] in old(nodes)
    {
      var node, j := MergeLeft(i, start);
      MergeRight(j, node);
    }

    // ----- Insert, Replace, Delete

    method NodeAt(source: nat, index: nat) returns (node: Node<T>, ghost i: nat)
      requires Valid() && source < width && index < |Project(grid, source)|
      ensures i == NodeOf(grid, source, index) && node == nodes[i]
    {
      var current, left := head, index;
      ghost var g := grid;
      i := 0;
      assert g[..|g|] == g;
      while current != null
        invariant i <= |nodes| && current == Ref(i)
        invariant 0 <= left && left + |Project(g[..i], source)| == index
        decreases |nodes| - i
      {
        ProjectNext(g, i, source);
        if current.bits[source] {
          if left == 0 {
            NodeOfUnique(g, source, index, i);
            return current, i;
          }
          left := left - 1;
        }
        current, i := current.next, i + 1;
      }
      assert false;
    }

    method Insert(source: nat, index: nat, value: T)
      requires Valid() && source < width && index <= |Project(grid, source)|
      modifies this, nodes
      ensures Valid() && grid == Grids.Insert(old(grid), width, source, index, value)
      ensures old(Tight(grid)) ==> Tight(grid)
      ensures forall k :: 0 <= k < |nodes| ==> nodes[k] in old(nodes) || fresh(nodes[k])
    {
      if Tight(grid) {
        InsertTight(grid, width, source, index, value);
      }
      var node, c := MakeRoom(source, index, value);
      SetBit(c, node, source, value);
    }

    // The node that takes the record, which is still without it.
    method MakeRoom(source: nat, index: nat, ghost value: T) returns (node: Node<T>, ghost c: nat)
      requires Valid() && source < width && index <= |Project(grid, source)|
      modifies `head, `tail, `nodes, `grid, nodes`previous, nodes`next
      ensures Valid() && c < |nodes| && node == nodes[c] && grid[c][source].None?
      ensures grid[c := grid[c][source := Some(value)]] == Grids.Insert(old(grid), width, source, index, value)
      ensures forall k :: 0 <= k < |nodes| ==> nodes[k] in old(nodes) || fresh(nodes[k])
    {
      var candidate, nextSource;
      ghost var i;
      candidate, nextSource, c, i := FindPlace(source, index);
      // linkedlist.go would go on past candidates that carry the bit, but there are none.
      assert candidate != nextSource && candidate != null ==> !candidate.bits[source];
      if candidate == nextSource || candidate == null {
        assert c == i;
        InsertInNewNode(grid, width, source, index, value);
        node := InsertBlank(c, nextSource);
      } else {
        node := candidate;
      }
    }

    method InsertBlank(ghost c: nat, next: Node?<T>) returns (node: Node<T>)
      requires Valid() && c <= |nodes| && next == Ref(c)
      modifies `head, `tail, `nodes, `grid, nodes`previous, nodes`next
      ensures Valid() && fresh(node) && c < |nodes| && node == nodes[c]
      ensures forall k :: 0 <= k < |nodes| ==> nodes[k] in old(nodes) || fresh(nodes[k])
      ensures grid == old(grid)[..c] + [Empty(width)] + old(grid)[c..]
    {
      ghost var was, pieces := nodes, grid;
      node := InsertBefore(c, next);
      grid := pieces[..c] + [Empty(width)] + pieces[c..];
      PayloadEmpty(ops, width);
      assert node.bits == Bits(Empty<T>(width));
      WideColumn(pieces, width, c, Empty(width));
      forall i | 0 <= i < |nodes|
        ensures nodes[i].value == Payload(ops, grid[i]) && nodes[i].bits == Bits(grid[i])
        ensures nodes[i] in was || fresh(nodes[i])
      {
        if i != c {
          var j := if i < c then i else i - 1;
          assert nodes[i] == was[j] && grid[i] == pieces[j];
        }
      }
    }

    // A node takes on one more record.
    method SetBit(ghost i: nat, node: Node<T>, source: nat, value: T)
      requires Valid() && i < |nodes| && node == nodes[i]
      requires source < width && grid[i][source].None?
      modifies node`value, node`bits, `grid
      ensures Valid() && grid == old(grid)[i := old(grid)[i][source := Some(value)]]
    {
      node.value := Xor(ops, node.value, value);
      node.bits := node.bits[source := true];
      PayloadSet(ops, grid[i], source, value);
      assert node.bits == Bits(grid[i][source := Some(value)]);
      grid := grid[i := grid[i][source := Some(value)]];
    }

    /** The search of Insert: the node just past the cut, and the first node from
        there on that carries the source's bit. */
    method FindPlace(source: nat, index: nat)
      returns (candidate: Node?<T>, nextSource: Node?<T>, ghost c: nat, ghost i: nat)
      requires Linked() && Carries() && source < width && index <= |Project(grid, source)|
      ensures c == Cut(grid, source, index) <= i <= |nodes|
      ensures candidate == Ref(c) && nextSource == Ref(i)
      ensures forall j :: c <= j < i ==> grid[j][source].None?
      ensures i < |grid| ==> grid[i][source].Some?
    {
      var previous;
      ghost var seen;
      previous, nextSource, c, i, seen := Walk(source, index);
      ScanDone(grid, source, index, seen, c, i);
      candidate := head;
      if previous != null {
        candidate := previous.next;
      }
    }

    // The walk of FindPlace: past index nodes that carry the bit, to the next one that does.
    method Walk(source: nat, index: nat)
      returns (previous: Node?<T>, nextSource: Node?<T>, ghost c: nat, ghost i: nat, ghost passed: nat)
      requires Linked() && Carries() && source < width && index <= |Project(grid, source)|
      ensures passed <= index && Scan(grid, source, passed, c, i) && (i == |grid| || passed == index)
      ensures previous == Ref(c - 1) && nextSource == Ref(i)
      ensures i < |grid| ==> grid[i][source].Some?
    {
      previous := null;
      var seen, node := 0, head;
      ghost var g := grid;
      c, i := 0, 0;
      while node != null && !(node.bits[source] && seen == index)
        invariant i <= |nodes| && node == Ref(i) && previous == Ref(c - 1)
        invariant 0 <= seen <= index && Scan(g, source, seen, c, i)
        decreases |nodes| - i
      {
        ScanStep(g, source, seen, c, i);
        if node.bits[source] {
          previous, seen, c := node, seen + 1, i + 1;
        }
        node, i := node.next, i + 1;
      }
      nextSource, passed := node, seen;
    }

    // The list half of Replace: adds delta to one record.
    method Adjust(source: nat, index: nat, delta: T)
      requires Valid() && source < width && index < |Project(grid, source)|
      modifies this, nodes
      ensures Valid() && nodes == old(nodes)
      ensures var i := NodeOf(old(grid), source, index);
              var x := Project(old(grid), source)[index];
              grid == old(grid)[i := old(grid)[i][source := Some(Xor(ops, x, delta))]]
      ensures old(Tight(grid)) ==> Tight(grid)
    {
      if Tight(grid) {
        RenewMeaning(grid, width, source, index, Xor(ops, Project(grid, source)[index], delta));
      }
      var node, i := NodeAt(source, index);
      AddTo(i, node, source, delta);
    }

    // A node's record changes by delta.
    method AddTo(ghost i: nat, node: Node<T>, source: nat, delta: T)
      requires Valid() && i < |nodes| && node == nodes[i]
      requires source < width && grid[i][source].Some?
      modifies node`value, `grid
      ensures Valid()
      ensures grid == old(grid)[i := old(grid)[i][source := Some(Xor(ops, old(grid)[i][source].value, delta))]]
    {
      PayloadAdjust(ops, grid[i], source, delta);
      node.value := Xor(ops, node.value, delta);
      ghost var c := grid[i][source := Some(Xor(ops, grid[i][source].value, delta))];
      assert node.bits == Bits(c);
      grid := grid[i := c];
    }

    /** The caller names the record it takes out, and nothing checks it. */
    method Delete(source: nat, index: nat, value: T)
      requires Valid() && source < width && index < |Project(grid, source)|
      modifies this, nodes
      ensures Valid() && grid == DeleteAs(ops, old(grid), width, source, index, value)
      ensures old(Tight(grid)) ==> Tight(grid)
      ensures forall k :: 0 <= k < |nodes| ==> nodes[k] in old(nodes)
    {
      if Tight(grid) {
        DeleteAsMeaning(ops, grid, width, source, index, value);
      }
      var node, i := NodeAt(source, index);
      ClearBit(i, node, source, value);
      MergeNodes(i, node);
    }

    // A node gives up a bit, and value is taken out of its payload.
    method ClearBit(ghost i: nat, node: Node<T>, source: nat, value: T)
      requires Valid() && i < |nodes| && node == nodes[i]
      requires source < width && grid[i][source].Some?
      modifies node`value, node`bits, `grid
      ensures Linked() && CarriesBut(i)
      ensures grid == old(grid)[i := Taken(ops, old(grid)[i], source, value)]
    {
      ghost var c := Taken(ops, grid[i], source, value);
      TakenPayload(ops, grid[i], source, value);
      TakenSmeared(ops, grid[i], source, value);
      node.value := Xor(ops, node.value, value);
      node.bits := node.bits[source := false];
      grid := grid[i := c];
    }

    // ----- Recover

    /** values holds, for every node, its payload without the records of the sources in done. */
    ghost predicate Peeled(values: map<Node<T>, T>, done: set<int>)
      reads this
    {
      Covers(values) && forall i {:trigger values[nodes[i]]} :: 0 <= i < |nodes| ==>
                values[nodes[i]] == Payload(ops, Mask(grid[i], done))
    }

    ghost predicate Covers(values: map<Node<T>, T>)
      reads this
    {
      |nodes| == |grid| && forall i :: 0 <= i < |nodes| ==> nodes[i] in values
    }

    method CopyValues() returns (values: map<Node<T>, T>)
      requires Valid()
      ensures Peeled(values, {})
    {
      values := map[];
      var node := head;
      ghost var i := 0;
      while node != null
        invariant 0 <= i <= |nodes| && node == Ref(i)
        invariant forall j :: 0 <= j < i ==> nodes[j] in values && values[nodes[j]] == Payload(ops, Mask(grid[j], {}))
        decreases |nodes| - i
      {
        assert Mask(grid[i], {}) == grid[i];
        values := values[node := node.value];
        node, i := node.next, i + 1;
      }
    }

    // The value of node j once its record of the source, if it has one, is taken out.
    ghost function Reduced(values: map<Node<T>, T>, source: nat, records: seq<T>, j: nat): T
      requires Covers(values) && j < |nodes|
      reads this
    {
      var k, was := |Project(grid[..j], source)|, values[nodes[j]];
      if At(grid[j], source).Some? && k < |records| then Xor(ops, was, records[k]) else was
    }

    lemma ReducedIsPeeled(values: map<Node<T>, T>, source: nat, done: set<int>, j: nat)
      requires Valid() && source < width && source !in done && Peeled(values, done) && j < |nodes|
      ensures Reduced(values, source, Project(grid, source), j) == Payload(ops, Mask(grid[j], done + {source}))
    {
      PayloadMask(ops, grid[j], done, source);
      if At(grid[j], source).Some? {
        AlignedRecord(grid, source, j);
      }
    }

    lemma AllReduced(values: map<Node<T>, T>, out: map<Node<T>, T>, source: nat, records: seq<T>, done: set<int>)
      requires Valid() && source < width && source !in done && Covers(values) && Covers(out)
      requires forall j :: 0 <= j < |nodes| ==> out[nodes[j]] == Reduced(values, source, records, j)
      ensures Peeled(values, done) && records == Project(grid, source) ==> Peeled(out, done + {source})
    {
      if Peeled(values, done) && records == Project(grid, source) {
        forall j | 0 <= j < |nodes| ensures out[nodes[j]] == Payload(ops, Mask(grid[j], done + {source})) {
          ReducedIsPeeled(values, source, done, j);
        }
      }
    }

    /** Takes one survivor's records out of the values, node by node; fails exactly
        when their number does not fit the bit fields. */
    method Subtract(values: map<Node<T>, T>, source: nat, records: seq<T>, ghost done: set<int>)
      returns (out: map<Node<T>, T>, ok: bool)
      requires Valid() && source < width && source !in done
      requires Covers(values)
      ensures ok <==> |records| == |Project(grid, source)|
      ensures Covers(out)
      ensures Peeled(values, done) && records == Project(grid, source) ==> Peeled(out, done + {source})
    {
      out := values;
      var index, node := 0, head;
      ghost var i, g := 0, grid;
      assert g[..|g|] == g;
      while node != null
        invariant 0 <= i <= |nodes| && node == Ref(i)
        invariant 0 <= index == |Project(g[..i], source)| <= |records|
        invariant Covers(out)
        invariant forall j :: i <= j < |nodes| ==> out[nodes[j]] == values[nodes[j]]
        invariant forall j :: 0 <= j < i ==> out[nodes[j]] == Reduced(values, source, records, j)
        decreases |nodes| - i
      {
        ProjectNext(g, i, source);
        if node.bits[source] {
          if index >= |records| {
            AlignedRecord(g, source, i);
            return out, false;
          }
          out := out[node := Xor(ops, out[node], records[index])];
          index := index + 1;
        }
        node, i := node.next, i + 1;
      }
      ok := index == |records|;
      AllReduced(values, out, source, records, done);
    }

    /** Takes out all the survivors' records, in whatever order the map gives them. */
    method Peel(survivors: map<int, seq<T>>) returns (values: map<Node<T>, T>, ok: bool)
      requires Valid() && forall s :: s in survivors ==> 0 <= s < width
      ensures ok <==> forall s :: s in survivors ==> |survivors[s]| == |Project(grid, s)|
      ensures Covers(values)
      ensures (forall s :: s in survivors ==> survivors[s] == Project(grid, s)) ==> Peeled(values, survivors.Keys)
    {
      values := CopyValues();
      var todo := survivors.Keys;
      ghost var done: set<int> := {};
      ghost var exact := forall s :: s in survivors ==> survivors[s] == Project(grid, s);
      while todo != {}
        invariant todo <= survivors.Keys && done == survivors.Keys - todo
        invariant Covers(values) && (exact ==> Peeled(values, done))
        invariant forall s :: s in done ==> |survivors[s]| == |Project(grid, s)|
      {
        var source := AnyOf(todo);
        values, ok := Subtract(values, source, survivors[source], done);
        if !ok {
          return;
        }
        OneLess(survivors.Keys, todo, source);
        todo, done := todo - {source}, done + {source};
      }
      assert done == survivors.Keys;
      ok := true;
    }

    // done holds every source but the missing one.
    ghost predicate AllBut(done: set<int>, missing: nat) {
      missing !in done && forall s :: 0 <= s < width && s != missing ==> s in done
    }

    lemma LastOne(values: map<Node<T>, T>, missing: nat, done: set<int>, i: nat)
      requires Valid() && missing < width && AllBut(done, missing)
      requires Covers(values) && i < |nodes| && At(grid[i], missing).Some?
      ensures Peeled(values, done) ==> values[nodes[i]] == At(grid[i], missing).value
    {
      PayloadOnly(ops, Mask(grid[i], done), missing);
    }

    /** Reads the missing source off the values that are left. */
    method Collect(values: map<Node<T>, T>, missing: nat, ghost done: set<int>) returns (out: seq<T>)
      requires Valid() && missing < width && AllBut(done, missing)
      requires Covers(values)
      ensures |out| == |Project(grid, missing)|
      ensures Peeled(values, done) ==> out == Project(grid, missing)
    {
      out := [];
      var node := head;
      ghost var i, g, exact := 0, grid, Peeled(values, done);
      assert g[..|g|] == g;
      while node != null
        invariant 0 <= i <= |nodes| && node == Ref(i)
        invariant |out| == |Project(g[..i], missing)|
        invariant exact ==> out == Project(g[..i], missing)
        decreases |nodes| - i
      {
        ProjectNext(g, i, missing);
        if node.bits[missing] {
          LastOne(values, missing, done, i);
          out := out + [values[node]];
        }
        node, i := node.next, i + 1;
      }
    }

    method NodeCount() returns (count: nat)
      requires Valid()
      ensures count == |grid|
    {
      count := 0;
      var node := head;
      while node != null
        invariant count <= |nodes| && node == Ref(count)
        decreases |nodes| - count
      {
        count, node := count + 1, node.next;
      }
    }
  }
}
