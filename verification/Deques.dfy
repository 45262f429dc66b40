/** structures/dequeue.go and structures/listqueue.go: one doubly linked list for
    all sources, each of which owns the nodes from its head to its tail.

    The list queue is the deque without PushFront and PopBack, statement for
    statement; it differs in Recover, which finds a source's length by walking
    from its head to its tail. */
module Deques {
  import opened Words
  import opened Grids
  import opened Runs
  import opened Results
  import opened Sets

  class QueueNode<T(!new)> {
    var value: T
    var refCount: int
    var previous: QueueNode?<T>
    var next: QueueNode?<T>

    constructor (zero: T, previous: QueueNode?<T>, next: QueueNode?<T>)
      ensures value == zero && refCount == 0 && this.previous == previous && this.next == next
    {
      this.value, this.refCount := zero, 0;
      this.previous, this.next := previous, next;
    }
  }

  ghost function RefIn<T(!new)>(nodes: seq<QueueNode<T>>, i: int): QueueNode?<T> {
    if 0 <= i < |nodes| then nodes[i] else null
  }

  /** The heads and tails are the ends of the runs; an empty source has none. */
  ghost predicate Delimit<T(!new)>(nodes: seq<QueueNode<T>>, sp: Spread<T>,
                                   heads: seq<QueueNode?<T>>, tails: seq<QueueNode?<T>>)
  {
    && |heads| == |tails| == |sp.lists| == |sp.lo|
    && (forall s {:trigger heads[s]} :: 0 <= s < |heads| ==>
          heads[s] == if sp.lists[s] == [] then null else RefIn(nodes, sp.lo[s]))
    && (forall s {:trigger tails[s]} :: 0 <= s < |tails| ==>
          tails[s] == if sp.lists[s] == [] then null else RefIn(nodes, sp.lo[s] + |sp.lists[s]| - 1))
  }

  lemma DelimitGrow<T(!new)>(nodes: seq<QueueNode<T>>, sp: Spread<T>, heads: seq<QueueNode?<T>>,
                             tails: seq<QueueNode?<T>>,
                             s: nat, x: T, p: int, back: bool)
    requires Delimit(nodes, sp, heads, tails) && s < |sp.lists| && 0 <= p < |nodes|
    requires p == if back then BackOf(sp, s) else FrontOf(sp, s)
    ensures Delimit(nodes, Grow(sp, s, x, p, back),
                    heads[s := if sp.lists[s] == [] || !back then nodes[p] else heads[s]],
                    tails[s := if sp.lists[s] == [] || back then nodes[p] else tails[s]])
  {
  }

  lemma DelimitPrepend<T(!new)>(nodes: seq<QueueNode<T>>, sp: Spread<T>, heads: seq<QueueNode?<T>>,
                                tails: seq<QueueNode?<T>>, node: QueueNode<T>)
    requires Inside(sp) && Delimit(nodes, sp, heads, tails)
    ensures Delimit([node] + nodes, Prepend(sp), heads, tails)
  {
  }

  lemma DelimitDetach<T(!new)>(nodes: seq<QueueNode<T>>, sp: Spread<T>, heads: seq<QueueNode?<T>>,
                               tails: seq<QueueNode?<T>>,
                               s: nat, front: bool, end: QueueNode?<T>)
    requires Inside(sp) && Delimit(nodes, sp, heads, tails) && s < |sp.lists| && sp.lists[s] != []
    requires end == if |sp.lists[s]| == 1 then null else RefIn(nodes, EndOf(sp, s, front) + if front then 1 else -1)
    ensures Delimit(nodes, Detach(sp, s, front),
                    heads[s := if |sp.lists[s]| == 1 || front then end else heads[s]],
                    tails[s := if |sp.lists[s]| == 1 || !front then end else tails[s]])
  {
  }

  lemma DelimitDrop<T(!new)>(nodes: seq<QueueNode<T>>, sp: Spread<T>, heads: seq<QueueNode?<T>>,
                             tails: seq<QueueNode?<T>>, i: nat)
    requires Inside(sp) && Delimit(nodes, sp, heads, tails) && i < |nodes| == sp.size && Blank(Col(sp, i))
    ensures Delimit(nodes[..i] + nodes[i + 1..], Close(sp, i), heads, tails)
  {
    forall s | 0 <= s < |heads| && sp.lists[s] != [] ensures sp.lo[s] > i || sp.lo[s] + |sp.lists[s]| <= i {
      assert Col(sp, i)[s] == Cell(sp, s, i);
    }
  }

  ghost function Retargeted<T(!new)>(ends: seq<QueueNode?<T>>, left: QueueNode<T>,
                                     right: QueueNode<T>): seq<QueueNode?<T>> {
    seq(|ends|, s requires 0 <= s < |ends| => if ends[s] == right then left else ends[s])
  }

  lemma DelimitMerge<T(!new)>(nodes: seq<QueueNode<T>>, sp: Spread<T>, heads: seq<QueueNode?<T>>,
                              tails: seq<QueueNode?<T>>, i: nat)
    requires Inside(sp) && Delimit(nodes, sp, heads, tails) && i + 1 < |nodes| == sp.size
    requires Disjoint(Col(sp, i), Col(sp, i + 1))
    requires forall j, k :: 0 <= j < k < |nodes| ==> nodes[j] != nodes[k]
    ensures Delimit(nodes[..i + 1] + nodes[i + 2..], Close(sp, i),
                    Retargeted(heads, nodes[i], nodes[i + 1]), Retargeted(tails, nodes[i], nodes[i + 1]))
  {
    forall s | 0 <= s < |heads| && sp.lists[s] != [] ensures sp.lo[s] > i || sp.lo[s] + |sp.lists[s]| <= i + 1 {
      assert Col(sp, i)[s] == Cell(sp, s, i) && Col(sp, i + 1)[s] == Cell(sp, s, i + 1);
    }
  }

  /** NewFusedDeque and NewFusedListQueue */
  method NewFusedDeque<T(!new)>(ops: XorOps<T>, sourceCount: int) returns (r: Result<FusedDeque<T>>)
    requires Lawful(ops)
    ensures r.Ok? <==> sourceCount >= 2
    ensures r.Ok? ==> fresh(r.value) && r.value.Valid() && r.value.nodes == []
    ensures r.Ok? ==> r.value.sources == seq(sourceCount, _ => [])
  {
    if sourceCount < 2 {
      return Err(TooFewSources);
    }
    var f := new FusedDeque(ops, sourceCount);
    r := Ok(f);
  }

  class FusedDeque<T(!new)> {
    const ops: XorOps<T>
    var sources: seq<seq<T>>
    var head: QueueNode?<T>
    var tail: QueueNode?<T>
    var heads: seq<QueueNode?<T>>
    var tails: seq<QueueNode?<T>>
    ghost var nodes: seq<QueueNode<T>>
    ghost var spread: Spread<T>
    ghost var cols: Grid<T>  // the columns of spread

    ghost function Ref(i: int): QueueNode?<T>
      reads `nodes
    {
      RefIn(nodes, i)
    }

    ghost predicate Linked()
      reads `head, `tail, `nodes, nodes`previous, nodes`next
    {
      && (forall i, j :: 0 <= i < j < |nodes| ==> nodes[i] != nodes[j])
      && (forall i {:trigger nodes[i].previous} :: 0 <= i < |nodes| ==> nodes[i].previous == Ref(i - 1))
      && (forall i {:trigger nodes[i].next} :: 0 <= i < |nodes| ==> nodes[i].next == Ref(i + 1))
      && head == Ref(0) && tail == Ref(|nodes| - 1)
    }

    /** Every node stores the exclusive-or of the elements aligned on it and their number. */
    ghost predicate Carries()
      reads `nodes, `cols, nodes`value, nodes`refCount
    {
      && |nodes| == |cols|
      && (forall i {:trigger nodes[i].value} :: 0 <= i < |nodes| ==> nodes[i].value == Payload(ops, cols[i]))
      && (forall i {:trigger nodes[i].refCount} :: 0 <= i < |nodes| ==> nodes[i].refCount == Count(cols[i]))
    }

    /** The heads and tails delimit the runs. */
    ghost predicate Ends()
      reads `nodes, `cols, `spread, `sources, `heads, `tails
    {
      Pictures(spread, cols) && sources == spread.lists && Delimit(nodes, spread, heads, tails)
    }

    ghost predicate Holds()
      reads this, nodes
    {
      Linked() && Carries() && Ends() && Lawful(ops)
    }

    ghost predicate Valid()
      reads this, nodes
    {
      Holds() && Sound(spread)
    }

    constructor (ops: XorOps<T>, sourceCount: nat)
      requires Lawful(ops)
      ensures Valid() && nodes == [] && this.ops == ops
      ensures spread == Spread(0, seq(sourceCount, _ => []), seq(sourceCount, _ => 0))
    {
      this.ops := ops;
      this.sources := seq(sourceCount, _ => []);
      this.head, this.tail := null, null;
      this.heads, this.tails := seq(sourceCount, _ => null), seq(sourceCount, _ => null);
      this.nodes := [];
      this.cols := [];
      this.spread := Spread(0, seq(sourceCount, _ => []), seq(sourceCount, _ => 0));
    }

    predicate ValidSource(source: int)
      reads `sources
    {
      0 <= source < |sources|
    }

    /** All sources start at the first node, or all end at the last one. */
    ghost predicate Flush(left: bool)
      reads `sources, `head, `tail, `heads, `tails
    {
      && |heads| == |tails| == |sources|
      && forall s :: 0 <= s < |sources| && sources[s] != [] ==> if left then heads[s] == head else tails[s] == tail
    }

    /** Then there are as many nodes as the longest source has elements. */
    lemma FlushLongest(left: bool)
      requires Valid() && Flush(left)
      ensures IsLongest(|nodes|, sources)
    {
      assert Runs.Flush(spread, left);
      Runs.FlushLongest(spread, left);
    }

    /** What a push does to the ends.  An empty source starts at the head when it is pushed
        at the back, at the tail when at the front; any other takes the neighbour of its end.
        There is one node more exactly when there was none to take. */
    twostate predicate Joined(source: nat, back: bool)
      requires old(Holds()) && Holds() && source < |old(sources)| == |sources|
      reads this, nodes
    {
      var first, last := old(heads)[source], old(tails)[source];
      && heads[source] != null && tails[source] != null
      && (if old(sources)[source] == [] then
            heads[source] == tails[source] == if back then head else tail
          else if back then heads[source] == first && tails[source].previous == last
          else tails[source] == last && heads[source].next == first)
      && |nodes| == |old(nodes)| +
           if (if old(sources)[source] == [] then old(head) == null
               else if back then last == old(tail) else first == old(head)) then 1 else 0
    }

    // A node's reference count; null has none.
    ghost function RefCount(node: QueueNode?<T>): int
      requires node != null ==> node in nodes
      reads `nodes, nodes`refCount
    {
      if node == null then 0 else node.refCount
    }

    /** The source's end and its outer neighbour have one user each: what a pop never leaves behind. */
    ghost predicate Mergeable(source: nat, front: bool)
      requires Holds() && source < |sources|
      reads this, nodes
    {
      var end := if front then heads[source] else tails[source];
      end != null && RefCount(end) == 1 && RefCount(if front then end.previous else end.next) == 1
    }

    /** The nodes that a pop costs: the source's end when it has no other user, and one
        more when the two nodes that then meet have one user each. */
    ghost function Loss(source: nat, front: bool): nat
      requires Holds() && source < |sources| && sources[source] != []
      reads this, nodes
    {
      var end := if front then heads[source] else tails[source];
      var inner, outer := if front then end.next else end.previous, if front then end.previous else end.next;
      var met := if end.refCount == 1 then RefCount(outer) else end.refCount - 1;
      (if end.refCount == 1 then 1 else 0) + if |sources[source]| > 1 && RefCount(inner) == 1 && met == 1 then 1 else 0
    }

    // The same, read off the runs.
    lemma EndUsers(source: nat, front: bool)
      requires Holds() && source < |sources| && sources[source] != []
      ensures var p, way := EndOf(spread, source, front), if front then 1 else -1;
              && (if front then heads[source] else tails[source]) == Ref(p) != null
              && RefCount(Ref(p)) == Users(spread, p) >= 1
              && RefCount(Ref(p + way)) == Users(spread, p + way)
              && RefCount(Ref(p - way)) == Users(spread, p - way)
    {
      DetachMeaning(spread, source, front);
      CountOfUser(Col(spread, EndOf(spread, source, front)), source);
    }

    lemma MergeableRuns(source: nat, front: bool)
      requires Holds() && source < |sources|
      ensures Mergeable(source, front) <==> Lonely(spread, source, front)
    {
      if sources[source] != [] {
        EndUsers(source, front);
        LonelyUsers(spread, source, front);
      }
    }

    lemma LossRuns(source: nat, front: bool)
      requires Holds() && source < |sources| && sources[source] != []
      ensures Loss(source, front) == spread.size - Pop(spread, source, front).size
    {
      EndUsers(source, front);
      PopSize(spread, source, front);
    }

    // ----- list surgery

    method AppendNode() returns (node: QueueNode<T>)
      requires Linked()
      modifies `head, `tail, `nodes, nodes`next
      ensures Linked() && fresh(node) && nodes == old(nodes) + [node]
      ensures node.value == ops.zero && node.refCount == 0
    {
      node := new QueueNode(ops.zero, tail, null);
      if tail == null {
        head := node;
      } else {
        tail.next := node;
      }
      tail := node;
      nodes := nodes + [node];
    }

    method PrependNode() returns (node: QueueNode<T>)
      requires Linked()
      modifies `head, `tail, `nodes, nodes`previous
      ensures Linked() && fresh(node) && nodes == [node] + old(nodes)
      ensures node.value == ops.zero && node.refCount == 0
    {
      node := new QueueNode(ops.zero, null, head);
      if head == null {
        tail := node;
      } else {
        head.previous := node;
      }
      head := node;
      ghost var was := nodes;
      nodes := [node] + nodes;
      assert forall i :: 0 < i < |nodes| ==> nodes[i] == was[i - 1];
    }

    method RemoveNode(ghost i: nat, node: QueueNode<T>)
      requires Linked() && i < |nodes| && node == nodes[i]
      modifies `head, `tail, `nodes, nodes`previous, nodes`next
      ensures Linked() && nodes == old(nodes)[..i] + old(nodes)[i + 1..]
    {
      Unlink(i, node);
      ghost var was := nodes;
      nodes := nodes[..i] + nodes[i + 1..];
      CutOut(was, i);
    }

    lemma CutOut(was: seq<QueueNode<T>>, i: nat)
      requires i < |was| && nodes == was[..i] + was[i + 1..]
      requires forall j, k :: 0 <= j < k < |was| ==> was[j] != was[k]
      requires head == RefIn(was, if i == 0 then 1 else 0)
      requires tail == RefIn(was, if i == |was| - 1 then i - 1 else |was| - 1)
      requires forall j {:trigger was[j].next} :: 0 <= j < |was| && j != i ==>
                 was[j].next == RefIn(was, if j == i - 1 then i + 1 else j + 1)
      requires forall j {:trigger was[j].previous} :: 0 <= j < |was| && j != i ==>
                 was[j].previous == RefIn(was, if j == i + 1 then i - 1 else j - 1)
      ensures Linked()
    {
      assert forall j :: 0 <= j < i ==> nodes[j] == was[j];
      assert forall j :: i <= j < |nodes| ==> nodes[j] == was[j + 1];
      assert forall j {:trigger nodes[j].previous} :: 0 <= j < |nodes| ==> nodes[j].previous == Ref(j - 1);
      assert forall j {:trigger nodes[j].next} :: 0 <= j < |nodes| ==> nodes[j].next == Ref(j + 1);
    }

    // The pointer writes of RemoveNode.
    method Unlink(ghost i: nat, node: QueueNode<T>)
      requires Linked() && i < |nodes| && node == nodes[i]
      modifies `head, `tail, nodes`previous, nodes`next
      ensures head == Ref(if i == 0 then 1 else 0)
      ensures tail == Ref(if i == |nodes| - 1 then i - 1 else |nodes| - 1)
      ensures forall j {:trigger nodes[j].next} :: 0 <= j < |nodes| && j != i ==>
                nodes[j].next == Ref(if j == i - 1 then i + 1 else j + 1)
      ensures forall j {:trigger nodes[j].previous} :: 0 <= j < |nodes| && j != i ==>
                nodes[j].previous == Ref(if j == i + 1 then i - 1 else j - 1)
    {
      if node.previous == null {
        head := node.next;
      } else {
        node.previous.next := node.next;
      }
      if node.next == null {
        tail := node.previous;
      } else {
        node.next.previous := node.previous;
      }
    }

    // ----- pushing

    method PushBack(source: int, value: T) returns (r: Result<()>)
      requires Valid()
      modifies this, nodes
      ensures Valid() && forall n :: n in nodes ==> n in old(nodes) || fresh(n)
      ensures r.Ok? <==> old(ValidSource(source))
      ensures r.Ok? ==> spread == Runs.PushBack(old(spread), source, value)
      ensures r.Ok? ==> Joined(source, true) && (old(Flush(true)) ==> Flush(true))
      ensures r.Ok? ==> sources == old(sources)[source := old(sources)[source] + [value]]
      ensures r.Err? ==> spread == old(spread)
    {
      if !ValidSource(source) {
        return Err(SourceOutOfRange);
      }
      PushSound(spread, source, value);
      var node := RoomAtBack(source);
      GrowRun(BackOf(spread, source), node, source, value, true);
      JoinedBack(source);
      r := Ok(());
    }

    // The node that the source's next last element goes to.
    method RoomAtBack(source: nat) returns (node: QueueNode<T>)
      requires Holds() && source < |sources|
      modifies `head, `tail, `nodes, `cols, `spread, nodes`next
      ensures Holds() && spread == BackRoom(old(spread), source) && sources == old(sources)
      ensures 0 <= BackOf(spread, source) < |nodes| && node == nodes[BackOf(spread, source)]
      ensures BackOf(spread, source) == BackOf(old(spread), source)
      ensures old(nodes) <= nodes && (node in old(nodes) || fresh(node))
      ensures forall n :: n in nodes ==> n in old(nodes) || fresh(n)
    {
      var next := if tails[source] == null then head else tails[source].next;
      if next == null {
        node := AppendRoom();
      } else {
        node := next;
      }
    }

    twostate lemma JoinedBack(source: nat)
      requires old(Holds()) && Holds() && source < |old(sources)| == |sources| && sources[source] != []
      requires var x := sources[source][|sources[source]| - 1];
               spread == Runs.PushBack(old(spread), source, x)
      requires old(nodes) <= nodes
      ensures Joined(source, true) && (old(Flush(true)) ==> Flush(true))
    {
    }

    twostate lemma JoinedFront(source: nat)
      requires old(Holds()) && Holds() && source < |old(sources)| == |sources| && sources[source] != []
      requires spread == Runs.PushFront(old(spread), source, sources[source][0])
      requires nodes == old(nodes) || (nodes != [] && nodes[1..] == old(nodes))
      ensures Joined(source, false) && (old(Flush(false)) ==> Flush(false))
    {
    }

    method PushFront(source: int, value: T) returns (r: Result<()>)
      requires Valid()
      modifies this, nodes
      ensures Valid() && forall n :: n in nodes ==> n in old(nodes) || fresh(n)
      ensures r.Ok? <==> old(ValidSource(source))
      ensures r.Ok? ==> spread == Runs.PushFront(old(spread), source, value)
      ensures r.Ok? ==> Joined(source, false) && (old(Flush(false)) ==> Flush(false))
      ensures r.Ok? ==> sources == old(sources)[source := [value] + old(sources)[source]]
      ensures r.Err? ==> spread == old(spread)
    {
      if !ValidSource(source) {
        return Err(SourceOutOfRange);
      }
      PushSound(spread, source, value);
      var node := RoomAtFront(source);
      GrowRun(FrontOf(spread, source), node, source, value, false);
      JoinedFront(source);
      r := Ok(());
    }

    // The node that the source's next first element goes to.
    method RoomAtFront(source: nat) returns (node: QueueNode<T>)
      requires Holds() && source < |sources|
      modifies `head, `tail, `nodes, `cols, `spread, nodes`previous
      ensures Holds() && spread == FrontRoom(old(spread), source) && sources == old(sources)
      ensures 0 <= FrontOf(spread, source) < |nodes| && node == nodes[FrontOf(spread, source)]
      ensures (nodes == old(nodes) || nodes == [node] + old(nodes)) && (node in old(nodes) || fresh(node))
      ensures forall n :: n in nodes ==> n in old(nodes) || fresh(n)
    {
      var previous := if heads[source] == null then tail else heads[source].previous;
      if previous == null {
        node := PrependRoom();
      } else {
        node := previous;
      }
    }

    method AppendRoom() returns (node: QueueNode<T>)
      requires Holds()
      modifies `head, `tail, `nodes, `cols, `spread, nodes`next
      ensures Holds() && spread == Append(old(spread))
      ensures fresh(node) && nodes == old(nodes) + [node]
    {
      RoomPicture(spread, cols);
      node := AddLast();
      Redraw(Append(spread));
    }

    // The same lists, spread over other nodes.
    ghost method Redraw(changed: Spread<T>)
      requires Linked() && Carries() && Lawful(ops)
      requires Pictures(changed, cols) && changed.lists == sources && Delimit(nodes, changed, heads, tails)
      modifies `spread
      ensures Holds() && spread == changed
    {
      spread := changed;
    }

    method PrependRoom() returns (node: QueueNode<T>)
      requires Holds()
      modifies `head, `tail, `nodes, `cols, `spread, nodes`previous
      ensures Holds() && spread == Prepend(old(spread))
      ensures fresh(node) && nodes == [node] + old(nodes)
    {
      RoomPicture(spread, cols);
      ghost var was := nodes;
      node := AddFirst();
      DelimitPrepend(was, spread, heads, tails, node);
      Redraw(Prepend(spread));
    }

    // A node without elements after all others.
    method AddLast() returns (node: QueueNode<T>)
      requires Linked() && Carries() && Lawful(ops)
      modifies `head, `tail, `nodes, `cols, nodes`next
      ensures Linked() && Carries() && cols == old(cols) + [Empty(|sources|)]
      ensures fresh(node) && nodes == old(nodes) + [node]
    {
      PayloadEmpty(ops, |sources|);
      CountNone(Empty<T>(|sources|));
      node := AppendNode();
      cols := cols + [Empty(|sources|)];
    }

    // A node without elements before all others.
    method AddFirst() returns (node: QueueNode<T>)
      requires Linked() && Carries() && Lawful(ops)
      modifies `head, `tail, `nodes, `cols, nodes`previous
      ensures Linked() && Carries() && cols == [Empty(|sources|)] + old(cols)
      ensures fresh(node) && nodes == [node] + old(nodes)
    {
      PayloadEmpty(ops, |sources|);
      CountNone(Empty<T>(|sources|));
      ghost var was, pieces := nodes, cols;
      node := PrependNode();
      cols := [Empty(|sources|)] + cols;
      assert forall i :: 0 < i < |nodes| ==> nodes[i] == was[i - 1] && cols[i] == pieces[i - 1];
    }

    // A node's column changes by one element.
    method Credit(ghost p: nat, node: QueueNode<T>, value: T, change: int, ghost c: Column<T>)
      requires Linked() && Carries() && p < |nodes| && node == nodes[p]
      requires Payload(ops, c) == Xor(ops, Payload(ops, cols[p]), value)
      requires Count(c) == Count(cols[p]) + change
      modifies node`value, node`refCount, `cols
      ensures Linked() && Carries() && cols == old(cols)[p := c]
    {
      node.value := Xor(ops, node.value, value);
      node.refCount := node.refCount + change;
      cols := cols[p := c];
    }

    // An element comes to a node.
    method Deposit(ghost p: nat, node: QueueNode<T>, source: nat, value: T)
      requires Linked() && Carries() && Lawful(ops) && p < |nodes| && node == nodes[p]
      requires source < |cols[p]| && cols[p][source].None?
      modifies node`value, node`refCount, `cols
      ensures Linked() && Carries() && cols == old(cols)[p := old(cols)[p][source := Some(value)]]
    {
      PayloadSet(ops, cols[p], source, value);
      CountChange(cols[p], source, Some(value));
      Credit(p, node, value, 1, cols[p][source := Some(value)]);
    }

    // An element leaves a node.
    method Debit(ghost p: nat, node: QueueNode<T>, source: nat, value: T)
      requires Linked() && Carries() && Lawful(ops) && p < |nodes| && node == nodes[p]
      requires source < |cols[p]| && cols[p][source] == Some(value)
      modifies node`value, node`refCount, `cols
      ensures Linked() && Carries() && cols == old(cols)[p := old(cols)[p][source := None]]
    {
      PayloadSet(ops, cols[p], source, value);
      CountChange(cols[p], source, None);
      Credit(p, node, value, -1, cols[p][source := None]);
    }

    // The left node takes over what the right one holds.
    method Absorb(ghost i: nat, left: QueueNode<T>, right: QueueNode<T>)
      requires Linked() && Carries() && Lawful(ops)
      requires i + 1 < |nodes| && left == nodes[i] && right == nodes[i + 1]
      requires |cols[i]| == |cols[i + 1]| && Disjoint(cols[i], cols[i + 1])
      modifies left`value, left`refCount, `head, `tail, `nodes, `cols, nodes`previous, nodes`next
      ensures Linked() && Carries() && cols == JoinAt(old(cols), i)
      ensures nodes == old(nodes)[..i + 1] + old(nodes)[i + 2..]
    {
      PayloadJoin(ops, cols[i], cols[i + 1]);
      CountJoin(cols[i], cols[i + 1]);
      Credit(i, left, right.value, right.refCount, Join(cols[i], cols[i + 1]));
      TakeOut(i + 1, right);
    }

    // A source's list changes, and its ends with it.
    method Place(source: nat, list: seq<T>, first: QueueNode?<T>, last: QueueNode?<T>, ghost changed: Spread<T>)
      requires Linked() && Carries() && Lawful(ops) && source < |sources| == |heads| == |tails|
      requires Pictures(changed, cols) && changed.lists == sources[source := list]
      requires Delimit(nodes, changed, heads[source := first], tails[source := last])
      modifies `sources, `heads, `tails, `spread
      ensures Holds() && spread == changed
    {
      sources := sources[source := list];
      heads, tails := heads[source := first], tails[source := last];
      spread := changed;
    }

    // One more element on a node next to the source's run.
    method GrowRun(ghost p: int, node: QueueNode<T>, source: nat, value: T, back: bool)
      requires Holds() && source < |sources| && 0 <= p < |nodes| && node == nodes[p]
      requires p == if back then BackOf(spread, source) else FrontOf(spread, source)
      modifies node`value, node`refCount, `heads, `tails, `sources, `spread, `cols
      ensures Holds() && spread == Grow(old(spread), source, value, p, back)
    {
      GrowPicture(spread, cols, source, value, p, back);
      DelimitGrow(nodes, spread, heads, tails, source, value, p, back);
      Deposit(p, node, source, value);
      var list := sources[source];
      var first := if list == [] || !back then node else heads[source];
      var last := if list == [] || back then node else tails[source];
      Place(source, if back then list + [value] else [value] + list, first, last, Grow(spread, source, value, p, back));
    }

    // ----- popping

    method PopFront(source: int) returns (r: Result<T>)
      requires Valid()
      modifies this, nodes
      ensures Valid() && forall n :: n in nodes ==> n in old(nodes)
      ensures r.Ok? <==> old(ValidSource(source) && sources[source] != [])
      ensures r.Ok? ==> r.value == old(sources)[source][0] && spread == Pop(old(spread), source, true)
      ensures r.Ok? ==> sources == old(sources)[source := old(sources)[source][1..]]
      ensures r.Ok? ==> !Mergeable(source, true) && |nodes| == |old(nodes)| - old(Loss(source, true))
      ensures r.Err? ==> spread == old(spread)
    {
      r := PopEither(source, true);
    }

    method PopBack(source: int) returns (r: Result<T>)
      requires Valid()
      modifies this, nodes
      ensures Valid() && forall n :: n in nodes ==> n in old(nodes)
      ensures r.Ok? <==> old(ValidSource(source) && sources[source] != [])
      ensures r.Ok? ==> r.value == old(sources)[source][|old(sources)[source]| - 1]
      ensures r.Ok? ==> spread == Pop(old(spread), source, false)
      ensures r.Ok? ==> sources == old(sources)[source := old(sources)[source][..|old(sources)[source]| - 1]]
      ensures r.Ok? ==> !Mergeable(source, false) && |nodes| == |old(nodes)| - old(Loss(source, false))
      ensures r.Err? ==> spread == old(spread)
    {
      r := PopEither(source, false);
    }

    method PopEither(source: int, front: bool) returns (r: Result<T>)
      requires Valid()
      modifies this, nodes
      ensures Valid() && forall n :: n in nodes ==> n in old(nodes)
      ensures r.Ok? <==> old(ValidSource(source) && sources[source] != [])
      ensures r.Ok? ==>
                var list := old(sources)[source];
                && r.value == (if front then list[0] else list[|list| - 1]) && spread == Pop(old(spread), source, front)
                && sources == old(sources)[source := if front then list[1..] else list[..|list| - 1]]
      ensures r.Ok? ==> !Mergeable(source, front) && |nodes| == |old(nodes)| - old(Loss(source, front))
      ensures r.Err? ==> spread == old(spread)
    {
      if !ValidSource(source) {
        return Err(SourceOutOfRange);
      }
      if |sources[source]| == 0 {
        return Err(SourceEmpty);
      }
      var value := Take(source, front);
      r := Ok(value);
    }

    // A pop from a source that has elements.
    method Take(source: nat, front: bool) returns (value: T)
      requires Valid() && source < |sources| && sources[source] != []
      modifies this, nodes
      ensures Valid() && spread == Pop(old(spread), source, front)
      ensures !Mergeable(source, front) && |nodes| == |old(nodes)| - old(Loss(source, front))
      ensures forall n :: n in nodes ==> n in old(nodes)
      ensures value == old(sources)[source][if front then 0 else |old(sources)[source]| - 1]
      ensures var list := old(sources)[source];
              sources == old(sources)[source := if front then list[1..] else list[..|list| - 1]]
    {
      PopSound(spread, source, front);
      LossRuns(source, front);
      ghost var p := EndOf(spread, source, front);
      var node := if front then heads[source] else tails[source];
      value := DetachElement(p, node, source, front);
      assert nodes == old(nodes);
      CloseUp(p, node, source, front);
    }

    // What follows on the nodes.
    method CloseUp(ghost p: nat, node: QueueNode<T>, source: nat, front: bool)
      requires Holds() && source < |sources| && p < |nodes| && node == nodes[p]
      modifies this, nodes
      ensures Holds() && spread == MergeEnd(Drop(old(spread), p), source, front) && !Mergeable(source, front)
      ensures forall n :: n in nodes ==> n in old(nodes)
    {
      DropIfUnused(p, node);
      assert forall i :: 0 <= i < |nodes| ==> nodes[i] in old(nodes);
      MergeAtEnd(source, front);
    }

    // Takes the element off its node, and moves the source's end.
    method DetachElement(ghost p: int, node: QueueNode<T>, source: nat, front: bool) returns (value: T)
      requires Holds() && source < |sources| && sources[source] != []
      requires p == EndOf(spread, source, front) && 0 <= p < |nodes| && node == nodes[p]
      modifies node`value, node`refCount, `heads, `tails, `sources, `spread, `cols
      ensures Holds() && spread == Detach(old(spread), source, front)
      ensures value == old(sources[source])[if front then 0 else |old(sources[source])| - 1]
    {
      DetachPicture(spread, cols, source, front);
      var list := sources[source];
      value := if front then list[0] else list[|list| - 1];
      Debit(p, node, source, value);
      var end := if |list| == 1 then null else if front then node.next else node.previous;
      DelimitDetach(nodes, spread, heads, tails, source, front, end);
      var first := if |list| == 1 || front then end else heads[source];
      var last := if |list| == 1 || !front then end else tails[source];
      Place(source, if front then list[1..] else list[..|list| - 1], first, last, Detach(spread, source, front));
    }

    method DropIfUnused(ghost p: nat, node: QueueNode<T>)
      requires Holds() && p < |nodes| && node == nodes[p]
      modifies `head, `tail, `nodes, `spread, `cols, nodes`previous, nodes`next
      ensures Holds() && spread == Drop(old(spread), p)
      ensures forall n :: n in nodes ==> n in old(nodes)
    {
      assert cols[p] == Col(spread, p);
      if node.refCount == 0 {
        DropNode(p, node);
      }
    }

    method DropNode(ghost p: nat, node: QueueNode<T>)
      requires Holds() && p < |nodes| && node == nodes[p] && Count(cols[p]) == 0
      modifies `head, `tail, `nodes, `spread, `cols, nodes`previous, nodes`next
      ensures Holds() && spread == Close(old(spread), p)
      ensures nodes == old(nodes)[..p] + old(nodes)[p + 1..]
    {
      DropPicture(spread, cols, p);
      DelimitDrop(nodes, spread, heads, tails, p);
      TakeOut(p, node);
      Redraw(Close(spread, p));
    }

    // The node and its column go.
    method TakeOut(ghost i: nat, node: QueueNode<T>)
      requires Linked() && Carries() && i < |nodes| && node == nodes[i]
      modifies `head, `tail, `nodes, `cols, nodes`previous, nodes`next
      ensures Linked() && Carries() && cols == Without(old(cols), i)
      ensures nodes == old(nodes)[..i] + old(nodes)[i + 1..]
    {
      ghost var was, pieces := nodes, cols;
      RemoveNode(i, node);
      cols := Without(cols, i);
      assert forall j :: 0 <= j < i ==> nodes[j] == was[j] && cols[j] == pieces[j];
      assert forall j :: i <= j < |nodes| ==> nodes[j] == was[j + 1] && cols[j] == pieces[j + 1];
    }

    method MergeAtEnd(source: nat, front: bool)
      requires Holds() && source < |sources|
      modifies this, nodes
      ensures Holds() && spread == MergeEnd(old(spread), source, front)
      ensures !Mergeable(source, front) && |nodes| == |old(nodes)| - if old(Mergeable(source, front)) then 1 else 0
      ensures forall n :: n in nodes ==> n in old(nodes)
    {
      MergeableRuns(source, front);
      PopSettles(spread, source, front);
      if Lonely(spread, source, front) {
        LonelyDisjoint(spread, source, front);
      }
      if front {
        MergeAtHead(source);
      } else {
        MergeAtTail(source);
      }
      MergeableRuns(source, front);
    }

    method MergeAtHead(source: nat)
      requires Holds() && source < |sources|
      requires Lonely(spread, source, true) ==>
                 var i := Edge(spread, source, true);
                 0 <= i && i + 1 < |cols| && Disjoint(cols[i], cols[i + 1])
      modifies this, nodes
      ensures Holds() && spread == MergeEnd(old(spread), source, true)
      ensures forall n :: n in nodes ==> n in old(nodes)
    {
      var newHead := heads[source];
      if newHead != null && newHead.previous != null && newHead.refCount == 1 && newHead.previous.refCount == 1 {
        Merge(Edge(spread, source, true), newHead.previous, newHead);
      }
    }

    method MergeAtTail(source: nat)
      requires Holds() && source < |sources|
      requires Lonely(spread, source, false) ==>
                 var i := Edge(spread, source, false);
                 0 <= i && i + 1 < |cols| && Disjoint(cols[i], cols[i + 1])
      modifies this, nodes
      ensures Holds() && spread == MergeEnd(old(spread), source, false)
      ensures forall n :: n in nodes ==> n in old(nodes)
    {
      var newTail := tails[source];
      if newTail != null && newTail.next != null && newTail.refCount == 1 && newTail.next.refCount == 1 {
        Merge(Edge(spread, source, false), newTail, newTail.next);
      }
    }

    method Merge(ghost i: nat, left: QueueNode<T>, right: QueueNode<T>)
      requires Holds() && i + 1 < |nodes| && left == nodes[i] && right == nodes[i + 1]
      requires Disjoint(cols[i], cols[i + 1])
      modifies this, nodes
      ensures Holds() && spread == Close(old(spread), i)
      ensures nodes == old(nodes)[..i + 1] + old(nodes)[i + 2..]
    {
      MergePicture(spread, cols, i);
      DelimitMerge(nodes, spread, heads, tails, i);
      Absorb(i, left, right);
      Retarget(left, right);
      Redraw(Close(spread, i));
    }

    // Heads and tails that name right name left from now on.
    method Retarget(left: QueueNode<T>, right: QueueNode<T>)
      requires |heads| == |tails|
      modifies `heads, `tails
      ensures heads == Retargeted(old(heads), left, right) && tails == Retargeted(old(tails), left, right)
    {
      ghost var h, t := heads, tails;
      for i := 0 to |heads|
        invariant |heads| == |tails| == |h|
        invariant forall s :: 0 <= s < |h| ==> heads[s] == if s < i && h[s] == right then left else h[s]
        invariant forall s :: 0 <= s < |h| ==> tails[s] == if s < i && t[s] == right then left else t[s]
      {
        if heads[i] == right {
          heads := heads[i := left];
        }
        if tails[i] == right {
          tails := tails[i := left];
        }
      }
    }

    // ----- the list queue, where it differs

    method Dequeue(source: int) returns (r: Result<T>)
      requires Valid()
      modifies this, nodes
      ensures Valid() && forall n :: n in nodes ==> n in old(nodes)
      ensures r.Ok? <==> old(ValidSource(source) && sources[source] != [])
      ensures r.Ok? ==> r.value == old(sources)[source][0] && spread == Pop(old(spread), source, true)
      ensures r.Ok? ==> sources == old(sources)[source := old(sources)[source][1..]]
      ensures r.Ok? ==> !Mergeable(source, true) && |nodes| == |old(nodes)| - old(Loss(source, true))
      ensures r.Err? ==> spread == old(spread)
    {
      if !ValidSource(source) {
        return Err(SourceOutOfRange);
      }
      if heads[source] == null {
        return Err(SourceEmpty);
      }
      var value := Take(source, true);
      r := Ok(value);
    }

    /** Walks from the source's head to its tail. */
    method SourceLength(source: nat) returns (length: nat)
      requires Valid() && source < |sources|
      ensures length == |sources[source]|
    {
      var node := heads[source];
      if node == null {
        return 0;
      }
      length := 1;
      while node != tails[source]
        invariant 0 < length <= |sources[source]| && node == Ref(spread.lo[source] + length - 1)
        decreases |sources[source]| - length
      {
        length, node := length + 1, node.next;
      }
    }

    // ----- Recover

    // The values still hold the elements of every source outside done.
    ghost predicate Peeled(values: map<QueueNode<T>, T>, done: set<int>)
      reads this
    {
      |nodes| == |cols| && forall i :: 0 <= i < |nodes| ==>
        nodes[i] in values && values[nodes[i]] == Payload(ops, Mask(cols[i], done))
    }

    ghost predicate Covers(values: map<QueueNode<T>, T>)
      reads `nodes
    {
      forall n :: n in nodes ==> n in values
    }

    // The first k elements of list have been taken out of the values along the source's run.
    ghost predicate Walked(values: map<QueueNode<T>, T>, out: map<QueueNode<T>, T>, source: nat, list: seq<T>, k: nat)
      reads `nodes, `spread
    {
      && k <= |list| && source < |spread.lo|
      && forall i {:trigger nodes[i]} :: 0 <= i < |nodes| ==>
           && nodes[i] in values && nodes[i] in out
           && var j := i - spread.lo[source];
              out[nodes[i]] == if 0 <= j < k then Xor(ops, values[nodes[i]], list[j]) else values[nodes[i]]
    }

    method CopyValues() returns (values: map<QueueNode<T>, T>)
      requires Valid()
      ensures Peeled(values, {})
    {
      values := map[];
      var node := head;
      ghost var i := 0;
      while node != null
        invariant 0 <= i <= |nodes| && node == Ref(i)
        invariant forall j :: 0 <= j < i ==> nodes[j] in values && values[nodes[j]] == Payload(ops, Mask(cols[j], {}))
        decreases |nodes| - i
      {
        assert Mask(cols[i], {}) == cols[i];
        values := values[node := node.value];
        node, i := node.next, i + 1;
      }
    }

    lemma WalkedAll(values: map<QueueNode<T>, T>, out: map<QueueNode<T>, T>, source: nat, done: set<int>)
      requires Valid() && source < |sources| && source !in done
      requires Walked(values, out, source, sources[source], |sources[source]|) && Peeled(values, done)
      ensures Peeled(out, done + {source})
    {
      forall i | 0 <= i < |nodes| ensures out[nodes[i]] == Payload(ops, Mask(cols[i], done + {source})) {
        WalkedOne(values, out[nodes[i]], source, done, i);
      }
    }

    lemma WalkedOne(values: map<QueueNode<T>, T>, now: T, source: nat, done: set<int>, i: nat)
      requires Valid() && source < |sources| && source !in done && i < |nodes| && Peeled(values, done)
      requires now == if Runs.Covers(spread, source, i)
                      then Xor(ops, values[nodes[i]], sources[source][i - spread.lo[source]]) else values[nodes[i]]
      ensures now == Payload(ops, Mask(cols[i], done + {source}))
    {
      assert cols[i] == Col(spread, i);
      assert cols[i][source] == Cell(spread, source, i);
      PayloadMask(ops, cols[i], done, source);
    }

    /** The deque compares the lengths first. */
    method Subtract(values: map<QueueNode<T>, T>, source: nat, list: seq<T>)
      returns (out: map<QueueNode<T>, T>, ok: bool)
      requires Valid() && source < |sources| && Covers(values)
      ensures ok <==> |list| == |sources[source]|
      ensures ok ==> Walked(values, out, source, list, |list|)
    {
      out := values;
      if |list| != |sources[source]| {
        return out, false;
      }
      var node := heads[source];
      for k := 0 to |list|
        invariant Walked(values, out, source, list, k)
        invariant list != [] ==> node == Ref(spread.lo[source] + k)
      {
        out := out[node := Xor(ops, out[node], list[k])];
        node := node.next;
      }
      ok := true;
    }

    /** The list queue walks first, perhaps past the end of the run, and compares the lengths afterwards. */
    method SubtractWalking(values: map<QueueNode<T>, T>, source: nat, list: seq<T>)
      returns (out: map<QueueNode<T>, T>, ok: bool)
      requires Valid() && source < |sources| && Covers(values)
      ensures ok <==> |list| == |sources[source]|
      ensures ok ==> Walked(values, out, source, list, |list|)
    {
      out := values;
      var node := heads[source];
      for k := 0 to |list|
        invariant Walked(values, out, source, list, k)
        invariant node == if sources[source] == [] then null else Ref(spread.lo[source] + k)
      {
        if node == null {
          return out, false;
        }
        out := out[node := Xor(ops, out[node], list[k])];
        node := node.next;
      }
      var length := SourceLength(source);
      ok := |list| == length;
    }

    // The list may be that of a survivor.
    ghost predicate Fits(source: int, list: seq<T>, missing: nat)
      reads `sources
    {
      ValidSource(source) && source != missing && |list| == |sources[source]|
    }

    ghost predicate AllFit(survivors: map<int, seq<T>>, keys: set<int>, missing: nat)
      reads `sources
    {
      forall s :: s in keys ==> s in survivors && Fits(s, survivors[s], missing)
    }

    method PeelOne(values: map<QueueNode<T>, T>, source: int, list: seq<T>, missing: nat, walking: bool,
                   ghost done: set<int>)
      returns (out: map<QueueNode<T>, T>, error: Option<Error>)
      requires Valid() && source !in done && Covers(values)
      ensures error.None? <==> Fits(source, list, missing)
      ensures Covers(out)
      ensures error.None? && list == sources[source] && Peeled(values, done) ==> Peeled(out, done + {source})
    {
      if !ValidSource(source) || source == missing {
        return values, Some(InvalidSurvivor);
      }
      var ok;
      if walking {
        out, ok := SubtractWalking(values, source, list);
      } else {
        out, ok := Subtract(values, source, list);
      }
      if !ok {
        return values, Some(WrongSurvivorSize);
      }
      if list == sources[source] && Peeled(values, done) {
        WalkedAll(values, out, source, done);
      }
      error := None;
    }

    // The survivors in done fit and, if they all are what the sources hold, are taken out.
    ghost predicate Peeling(values: map<QueueNode<T>, T>, survivors: map<int, seq<T>>, done: set<int>, missing: nat)
      reads this
    {
      && Covers(values) && AllFit(survivors, done, missing)
      && ((forall s :: s in survivors ==> survivors[s] == Held(s)) ==> Peeled(values, done))
    }

    ghost function Held(source: int): seq<T>
      reads `sources
    {
      if ValidSource(source) then sources[source] else []
    }

    method PeelNext(values: map<QueueNode<T>, T>, survivors: map<int, seq<T>>, source: int, missing: nat, walking: bool,
                    ghost done: set<int>)
      returns (out: map<QueueNode<T>, T>, error: Option<Error>)
      requires Valid() && Peeling(values, survivors, done, missing) && source in survivors && source !in done
      ensures Covers(out)
      ensures if error.None? then Peeling(out, survivors, done + {source}, missing)
              else !AllFit(survivors, survivors.Keys, missing)
    {
      out, error := PeelOne(values, source, survivors[source], missing, walking, done);
    }

    /** Takes out all the survivors' elements, in whatever order the map gives them. */
    method Peel(missing: nat, survivors: map<int, seq<T>>, walking: bool)
      returns (values: map<QueueNode<T>, T>, error: Option<Error>)
      requires Valid()
      ensures error.None? <==> AllFit(survivors, survivors.Keys, missing)
      ensures Covers(values) && (error.None? ==> Peeling(values, survivors, survivors.Keys, missing))
    {
      values := CopyValues();
      var todo := survivors.Keys;
      ghost var done: set<int> := {};
      while todo != {}
        invariant todo <= survivors.Keys && done == survivors.Keys - todo
        invariant Peeling(values, survivors, done, missing)
      {
        var source := AnyOf(todo);
        values, error := PeelNext(values, survivors, source, missing, walking, done);
        if error.Some? {
          return;
        }
        OneLess(survivors.Keys, todo, source);
        todo, done := todo - {source}, done + {source};
      }
      assert done == survivors.Keys;
      error := None;
    }

    // The values of length nodes from the given one on.
    method ReadFrom(first: QueueNode?<T>, length: nat, values: map<QueueNode<T>, T>, ghost lo: int)
      returns (out: seq<T>)
      requires Linked() && Covers(values)
      requires length > 0 ==> 0 <= lo && lo + length <= |nodes| && first == nodes[lo]
      ensures |out| == length && forall k :: 0 <= k < length ==> out[k] == values[nodes[lo + k]]
    {
      out := [];
      var node := first;
      while |out| < length
        invariant |out| <= length && (length > 0 ==> node == Ref(lo + |out|))
        invariant forall k :: 0 <= k < |out| ==> out[k] == values[nodes[lo + k]]
      {
        out := out + [values[node]];
        node := node.next;
      }
    }

    method LengthOf(source: nat, walking: bool) returns (length: nat)
      requires Valid() && source < |sources|
      ensures length == |sources[source]|
    {
      length := |sources[source]|;
      if walking {
        length := SourceLength(source);
      }
    }

    /** Reads the missing source off the values that are left. */
    method Collect(values: map<QueueNode<T>, T>, missing: nat, length: nat, ghost done: set<int>) returns (out: seq<T>)
      requires Valid() && missing < |sources| && length == |sources[missing]|
      requires missing !in done && forall s :: 0 <= s < |sources| && s != missing ==> s in done
      requires Covers(values)
      ensures |out| == length && (Peeled(values, done) ==> out == sources[missing])
    {
      ghost var lo := spread.lo[missing];
      out := ReadFrom(heads[missing], length, values, lo);
      if Peeled(values, done) {
        forall k | 0 <= k < length ensures out[k] == sources[missing][k] {
          OnlyMissing(values, lo + k, missing, done);
        }
      }
    }

    lemma OnlyMissing(values: map<QueueNode<T>, T>, i: nat, missing: nat, done: set<int>)
      requires Valid() && Peeled(values, done) && missing < |sources| && i < |nodes| && Runs.Covers(spread, missing, i)
      requires missing !in done && forall s :: 0 <= s < |sources| && s != missing ==> s in done
      ensures values[nodes[i]] == sources[missing][i - spread.lo[missing]]
    {
      assert cols[i] == Col(spread, i);
      assert Mask(cols[i], done)[missing] == Cell(spread, missing, i);
      PayloadOnly(ops, Mask(cols[i], done), missing);
    }

    method ReadMissing(values: map<QueueNode<T>, T>, missing: nat, walking: bool, ghost done: set<int>)
      returns (out: seq<T>)
      requires Valid() && missing < |sources| && Covers(values)
      requires |done| == |sources| - 1 && forall s :: s in done ==> 0 <= s < |sources| && s != missing
      ensures Peeled(values, done) ==> out == sources[missing]
    {
      OthersComplete(|sources|, missing, done);
      var length := LengthOf(missing, walking);
      out := Collect(values, missing, length, done);
    }

    /** Accepts exactly the survivors whose numbers and lengths fit, and gives back
        the missing list when they are what the sources hold.  walking is the list queue's way. */
    method Recover(missing: int, survivors: map<int, seq<T>>, walking: bool) returns (r: Result<seq<T>>)
      requires Valid()
      ensures r.Ok? <==>
                && ValidSource(missing) && |survivors| == |sources| - 1
                && forall s :: s in survivors ==> 0 <= s < |sources| && s != missing && |survivors[s]| == |sources[s]|
      ensures r.Ok? && (forall s :: s in survivors ==> survivors[s] == sources[s]) ==> r.value == sources[missing]
    {
      if !ValidSource(missing) {
        return Err(SourceOutOfRange);
      }
      if |survivors| != |sources| - 1 {
        return Err(WrongSurvivorCount);
      }
      var values, error := Peel(missing, survivors, walking);
      if error.Some? {
        return Err(error.value);
      }
      assert |survivors.Keys| == |survivors|;
      var out := ReadMissing(values, missing, walking, survivors.Keys);
      r := Ok(out);
    }

    /** Never more nodes than elements, and fewer exactly when some node is shared. */
    method NodeCount() returns (count: nat)
      requires Valid()
      ensures count == |nodes| <= Elements(sources)
      ensures count < Elements(sources) <==> exists i :: 0 <= i < |nodes| && nodes[i].refCount >= 2
    {
      count := 0;
      var node := head;
      while node != null
        invariant count <= |nodes| && node == Ref(count)
        decreases |nodes| - count
      {
        count, node := count + 1, node.next;
      }
      NodesBounded(spread);
      assert forall i :: 0 <= i < |nodes| ==> nodes[i].refCount == Count(Col(spread, i));
    }
  }

  // ----- whole runs

  method Serve<T(!new)>(f: FusedDeque<T>, m: Move<T>)
    requires f.Valid()
    modifies f, f.nodes
    ensures f.Valid() && f.sources == Plainly(old(f.sources), m)
    ensures forall n :: n in f.nodes ==> n in old(f.nodes) || fresh(n)
    ensures m.AtBack? && old(f.Flush(true)) ==> f.Flush(true)
    ensures m.AtFront? && old(f.Flush(false)) ==> f.Flush(false)
  {
    match m
    case AtBack(s, x) => var _ := f.PushBack(s, x);
    case AtFront(s, x) => var _ := f.PushFront(s, x);
    case OffFront(s) => var _ := f.PopFront(s);
    case OffBack(s) => var _ := f.PopBack(s);
  }

  /** Any run of pushes and pops ends with the lists that plain ones would hold; pushes
      at one end only, into an empty structure, with as many nodes as the longest of them. */
  method ServeAll<T(!new)>(ops: XorOps<T>, sourceCount: nat, moves: seq<Move<T>>) returns (f: FusedDeque<T>)
    requires Lawful(ops)
    ensures f.Valid() && f.sources == PlainlyAll(seq(sourceCount, _ => []), moves)
    ensures (forall m :: m in moves ==> m.AtBack?) || (forall m :: m in moves ==> m.AtFront?) ==>
              IsLongest(|f.nodes|, f.sources)
  {
    f := new FusedDeque(ops, sourceCount);
    ghost var empty := f.sources;
    for i := 0 to |moves|
      invariant fresh(f) && f.Valid() && f.sources == PlainlyAll(empty, moves[..i])
      invariant forall k :: 0 <= k < |f.nodes| ==> fresh(f.nodes[k])
      invariant (forall m :: m in moves ==> m.AtBack?) ==> f.Flush(true)
      invariant (forall m :: m in moves ==> m.AtFront?) ==> f.Flush(false)
    {
      assert moves[..i + 1][..i] == moves[..i] && moves[i] in moves;
      ghost var before := f.nodes;
      Serve(f, moves[i]);
      forall k | 0 <= k < |f.nodes| ensures fresh(f.nodes[k]) {
        assert f.nodes[k] in f.nodes;
      }
    }
    assert moves[..|moves|] == moves;
    if forall m :: m in moves ==> m.AtBack? {
      f.FlushLongest(true);
    }
    if forall m :: m in moves ==> m.AtFront? {
      f.FlushLongest(false);
    }
  }
}
