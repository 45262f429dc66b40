/** The meaning of an interval fused list, free of pointers.

    A queue or a deque of one source occupies a run of neighbouring nodes, from
    its head to its tail; the runs of different sources overlap freely.  A Spread
    says how many nodes there are, what each source holds and at which node its
    run starts.  The column of a node is again one optional record per source, so
    payloads and projections are those of Grids. */
module Runs {
  import opened Grids

  /** The start of an empty source means nothing. */
  datatype Spread<+T> = Spread(size: nat, lists: seq<seq<T>>, lo: seq<int>)

  predicate Covers<T>(sp: Spread<T>, s: nat, i: int)
    requires s < |sp.lists| == |sp.lo|
  {
    sp.lo[s] <= i < sp.lo[s] + |sp.lists[s]|
  }

  function Cell<T>(sp: Spread<T>, s: nat, i: int): Option<T>
    requires s < |sp.lists| == |sp.lo|
  {
    if Covers(sp, s, i) then Some(sp.lists[s][i - sp.lo[s]]) else None
  }

  /** The records aligned on node i. */
  function Col<T>(sp: Spread<T>, i: int): Column<T>
    requires |sp.lists| == |sp.lo|
  {
    seq(|sp.lists|, s requires 0 <= s < |sp.lists| => Cell(sp, s, i))
  }

  /** A node's reference count. */
  function Count<T>(c: Column<T>): nat {
    if c == [] then 0 else Count(c[..|c| - 1]) + if c[|c| - 1].Some? then 1 else 0
  }

  /** Every run lies within the list. */
  ghost predicate Inside<T>(sp: Spread<T>) {
    && |sp.lists| == |sp.lo|
    && forall s :: 0 <= s < |sp.lists| && sp.lists[s] != [] ==>
         0 <= sp.lo[s] && sp.lo[s] + |sp.lists[s]| <= sp.size
  }

  /** And every node lies within a run. */
  ghost predicate Sound<T>(sp: Spread<T>) {
    Inside(sp) && forall i :: 0 <= i < sp.size ==> Count(Col(sp, i)) >= 1
  }

  /** The list read as a grid. */
  function Columns<T>(sp: Spread<T>): Grid<T>
    requires |sp.lists| == |sp.lo|
  {
    seq(sp.size, i => Col(sp, i))
  }

  ghost predicate Pictures<T>(sp: Spread<T>, cols: Grid<T>) {
    Inside(sp) && cols == Columns(sp)
  }

  // ----- counting a column

  lemma {:induction false} CountChange<T>(c: Column<T>, s: nat, x: Option<T>)
    requires s < |c|
    ensures Count(c[s := x]) == Count(c) - (if c[s].Some? then 1 else 0) + if x.Some? then 1 else 0
  {
    var last := |c| - 1;
    if s == last {
      assert c[s := x][..last] == c[..last];
    } else {
      assert c[s := x][..last] == c[..last][s := x];
      CountChange(c[..last], s, x);
    }
  }

  lemma {:induction false} CountNone<T>(c: Column<T>)
    ensures Count(c) == 0 <==> Blank(c)
  {
    if c != [] {
      var last := |c| - 1;
      CountNone(c[..last]);
      assert Blank(c) <==> Blank(c[..last]) && c[last].None?;
    }
  }

  // A count of one leaves no room for a second source.
  lemma CountOne<T>(c: Column<T>, s: nat)
    requires Count(c) == 1 && s < |c| && c[s].Some?
    ensures forall t :: 0 <= t < |c| && t != s ==> c[t].None?
  {
    CountChange(c, s, None);
    CountNone(c[s := None]);
    assert forall t :: 0 <= t < |c| && t != s ==> c[t] == c[s := None][t];
  }

  lemma {:induction false} CountJoin<T>(a: Column<T>, b: Column<T>)
    requires |a| == |b| && Disjoint(a, b)
    ensures Count(Join(a, b)) == Count(a) + Count(b)
  {
    if a != [] {
      var last := |a| - 1;
      assert Join(a, b)[..last] == Join(a[..last], b[..last]);
      CountJoin(a[..last], b[..last]);
    }
  }

  // ----- pushing

  /** Past the end of the source's run; an empty source starts at the head. */
  function BackOf<T>(sp: Spread<T>, s: nat): int
    requires s < |sp.lists| == |sp.lo|
  {
    if sp.lists[s] == [] then 0 else sp.lo[s] + |sp.lists[s]|
  }

  /** A new first node: everything moves up by one. */
  function Prepend<T>(sp: Spread<T>): Spread<T> {
    sp.(size := sp.size + 1, lo := seq(|sp.lo|, t requires 0 <= t < |sp.lo| => sp.lo[t] + 1))
  }

  function Append<T>(sp: Spread<T>): Spread<T> {
    sp.(size := sp.size + 1)
  }

  /** Before the start of the source's run; an empty source starts at the tail. */
  function FrontOf<T>(sp: Spread<T>, s: nat): int
    requires s < |sp.lists| == |sp.lo|
  {
    if sp.lists[s] == [] then sp.size - 1 else sp.lo[s] - 1
  }

  /** The source takes node p, next to its run at one end. */
  function Grow<T>(sp: Spread<T>, s: nat, x: T, p: int, back: bool): Spread<T>
    requires s < |sp.lists| == |sp.lo|
  {
    if back then sp.(lists := sp.lists[s := sp.lists[s] + [x]], lo := sp.lo[s := p - |sp.lists[s]|])
    else sp.(lists := sp.lists[s := [x] + sp.lists[s]], lo := sp.lo[s := p])
  }

  /** With a node behind the source's run, a new one if need be. */
  function BackRoom<T>(sp: Spread<T>, s: nat): Spread<T>
    requires s < |sp.lists| == |sp.lo|
  {
    if BackOf(sp, s) == sp.size then Append(sp) else sp
  }

  /** With a node in front of it. */
  function FrontRoom<T>(sp: Spread<T>, s: nat): Spread<T>
    requires s < |sp.lists| == |sp.lo|
  {
    if FrontOf(sp, s) < 0 then Prepend(sp) else sp
  }

  function PushBack<T>(sp: Spread<T>, s: nat, x: T): Spread<T>
    requires s < |sp.lists| == |sp.lo|
  {
    Grow(BackRoom(sp, s), s, x, BackOf(sp, s), true)
  }

  function PushFront<T>(sp: Spread<T>, s: nat, x: T): Spread<T>
    requires s < |sp.lists| == |sp.lo|
  {
    Grow(FrontRoom(sp, s), s, x, FrontOf(FrontRoom(sp, s), s), false)
  }

  /** One more record at one end of a run changes one column. */
  lemma GrowMeaning<T>(sp: Spread<T>, s: nat, x: T, p: nat, back: bool)
    requires Inside(sp) && s < |sp.lists| && p < sp.size
    requires p == if back then BackOf(sp, s) else FrontOf(sp, s)
    ensures var grown := Grow(sp, s, x, p, back);
            && Inside(grown) && Col(sp, p)[s].None?
            && forall i :: 0 <= i < sp.size ==> Col(grown, i) == if i == p then Col(sp, p)[s := Some(x)] else Col(sp, i)
  {
    var grown := Grow(sp, s, x, p, back);
    forall i | 0 <= i < sp.size ensures Col(grown, i) == if i == p then Col(sp, p)[s := Some(x)] else Col(sp, i) {
      assert forall t :: 0 <= t < |sp.lists| && t != s ==> Cell(grown, t, i) == Cell(sp, t, i);
    }
  }

  lemma PrependMeaning<T>(sp: Spread<T>)
    requires Inside(sp)
    ensures Inside(Prepend(sp)) && Blank(Col(Prepend(sp), 0))
    ensures forall i :: 0 < i <= sp.size ==> Col(Prepend(sp), i) == Col(sp, i - 1)
  {
    forall i | 0 < i <= sp.size ensures Col(Prepend(sp), i) == Col(sp, i - 1) {
      assert forall s :: 0 <= s < |sp.lists| ==> Cell(Prepend(sp), s, i) == Cell(sp, s, i - 1);
    }
  }

  lemma AppendMeaning<T>(sp: Spread<T>)
    requires Inside(sp)
    ensures Inside(Append(sp)) && Blank(Col(Append(sp), sp.size))
    ensures forall i :: 0 <= i < sp.size ==> Col(Append(sp), i) == Col(sp, i)
  {
  }

  lemma GrowSound<T>(sp: Spread<T>, s: nat, x: T, p: nat, back: bool)
    requires Inside(sp) && s < |sp.lists| && p < sp.size
    requires p == if back then BackOf(sp, s) else FrontOf(sp, s)
    requires forall i :: 0 <= i < sp.size && i != p ==> Count(Col(sp, i)) >= 1
    ensures Sound(Grow(sp, s, x, p, back))
  {
    GrowMeaning(sp, s, x, p, back);
    CountChange(Col(sp, p), s, Some(x));
  }

  /** A push adds at most one node, and the source's list is longer by x at that end. */
  lemma PushSound<T>(sp: Spread<T>, s: nat, x: T)
    requires Sound(sp) && s < |sp.lists|
    ensures Sound(PushBack(sp, s, x)) && PushBack(sp, s, x).lists == sp.lists[s := sp.lists[s] + [x]]
    ensures Sound(PushFront(sp, s, x)) && PushFront(sp, s, x).lists == sp.lists[s := [x] + sp.lists[s]]
    ensures sp.size <= PushBack(sp, s, x).size <= sp.size + 1
    ensures sp.size <= PushFront(sp, s, x).size <= sp.size + 1
  {
    PrependMeaning(sp);
    AppendMeaning(sp);
    GrowSound(BackRoom(sp, s), s, x, BackOf(sp, s), true);
    GrowSound(FrontRoom(sp, s), s, x, FrontOf(FrontRoom(sp, s), s), false);
  }

  /** A push adds a node exactly when the source has reached that end of the list, or there is no node yet. */
  lemma PushSize<T>(sp: Spread<T>, s: nat, x: T)
    requires Inside(sp) && s < |sp.lists|
    ensures PushBack(sp, s, x).size ==
              sp.size + if (if sp.lists[s] == [] then 0 else sp.lo[s] + |sp.lists[s]|) == sp.size then 1 else 0
    ensures PushFront(sp, s, x).size ==
              sp.size + if (if sp.lists[s] == [] then sp.size else sp.lo[s]) == 0 then 1 else 0
  {
  }

  // ----- without pops

  ghost predicate IsLongest<T>(k: nat, lists: seq<seq<T>>) {
    && (forall s :: 0 <= s < |lists| ==> |lists[s]| <= k)
    && (k == 0 || exists s :: 0 <= s < |lists| && |lists[s]| == k)
  }

  /** All runs start at the first node, or all end at the last one. */
  ghost predicate Flush<T>(sp: Spread<T>, left: bool) {
    && |sp.lists| == |sp.lo|
    && forall s :: 0 <= s < |sp.lists| && sp.lists[s] != [] ==>
         if left then sp.lo[s] == 0 else sp.lo[s] + |sp.lists[s]| == sp.size
  }

  lemma FlushLongest<T>(sp: Spread<T>, left: bool)
    requires Sound(sp) && Flush(sp, left)
    ensures IsLongest(sp.size, sp.lists)
  {
    if sp.size > 0 {
      var i := if left then sp.size - 1 else 0;
      CountNone(Col(sp, i));
      var s :| 0 <= s < |sp.lists| && Col(sp, i)[s].Some?;
      assert Covers(sp, s, i);
    }
  }

  // ----- popping

  /** The first or the last record of a source is gone; the nodes are the same. */
  function Detach<T>(sp: Spread<T>, s: nat, front: bool): Spread<T>
    requires Inside(sp) && s < |sp.lists| && sp.lists[s] != []
  {
    if front then sp.(lists := sp.lists[s := sp.lists[s][1..]], lo := sp.lo[s := sp.lo[s] + 1])
    else sp.(lists := sp.lists[s := sp.lists[s][..|sp.lists[s]| - 1]])
  }

  /** The node at the end from which the source is popped. */
  function EndOf<T>(sp: Spread<T>, s: nat, front: bool): int
    requires s < |sp.lists| == |sp.lo|
  {
    if front then sp.lo[s] else sp.lo[s] + |sp.lists[s]| - 1
  }

  lemma DetachMeaning<T>(sp: Spread<T>, s: nat, front: bool)
    requires Inside(sp) && s < |sp.lists| && sp.lists[s] != []
    ensures var p, less := EndOf(sp, s, front), Detach(sp, s, front);
            && 0 <= p < sp.size && Inside(less)
            && Col(sp, p)[s] == Some(if front then sp.lists[s][0] else sp.lists[s][|sp.lists[s]| - 1])
            && forall i :: 0 <= i < sp.size ==> Col(less, i) == if i == p then Col(sp, p)[s := None] else Col(sp, i)
  {
    var p, less := EndOf(sp, s, front), Detach(sp, s, front);
    forall i | 0 <= i < sp.size ensures Col(less, i) == if i == p then Col(sp, p)[s := None] else Col(sp, i) {
      assert forall t :: 0 <= t < |sp.lists| && t != s ==> Cell(less, t, i) == Cell(sp, t, i);
    }
  }

  /** Nodes i and i + 1 become one: runs to the right of node i start one node earlier. */
  function Close<T>(sp: Spread<T>, i: int): Spread<T>
    requires sp.size > 0
  {
    sp.(size := sp.size - 1,
        lo := seq(|sp.lo|, t requires 0 <= t < |sp.lo| => if sp.lo[t] > i then sp.lo[t] - 1 else sp.lo[t]))
  }

  /** When no source covers both nodes, their columns are joined and every run
      keeps its length.  An empty node disappears without a trace. */
  lemma CloseMeaning<T>(sp: Spread<T>, i: nat)
    requires Inside(sp) && i < sp.size && Disjoint(Col(sp, i), Col(sp, i + 1))
    requires i + 1 == sp.size ==> Blank(Col(sp, i))
    ensures Inside(Close(sp, i))
    ensures forall j :: 0 <= j < i ==> Col(Close(sp, i), j) == Col(sp, j)
    ensures i + 1 < sp.size ==> Col(Close(sp, i), i) == Join(Col(sp, i), Col(sp, i + 1))
    ensures forall j :: i < j < sp.size - 1 ==> Col(Close(sp, i), j) == Col(sp, j + 1)
  {
    forall s | 0 <= s < |sp.lists| && sp.lists[s] != []
      ensures sp.lo[s] > i || sp.lo[s] + |sp.lists[s]| <= if i + 1 == sp.size then i else i + 1
    {
      assert Col(sp, i)[s] == Cell(sp, s, i) && Col(sp, i + 1)[s] == Cell(sp, s, i + 1);
    }
    var less := Close(sp, i);
    forall j, s | 0 <= j < less.size && 0 <= s < |sp.lists|
      ensures Cell(less, s, j) ==
                (if j < i || (j == i && Covers(sp, s, i)) then Cell(sp, s, j) else Cell(sp, s, j + 1))
    {
    }
  }

  /** Drops the node the source has left when nobody else uses it. */
  function Drop<T>(sp: Spread<T>, p: int): Spread<T>
    requires Inside(sp) && sp.size > 0
  {
    if Count(Col(sp, p)) == 0 then Close(sp, p) else sp
  }

  // The left one of the two nodes at the source's end: the end itself and its outer neighbour.
  function Edge<T>(sp: Spread<T>, s: nat, front: bool): int
    requires s < |sp.lists| == |sp.lo|
  {
    if front then sp.lo[s] - 1 else sp.lo[s] + |sp.lists[s]| - 1
  }

  /** The source's new end and its outer neighbour each belong to one source only. */
  predicate Lonely<T>(sp: Spread<T>, s: nat, front: bool)
    requires s < |sp.lists| == |sp.lo|
  {
    && sp.lists[s] != [] && 0 <= Edge(sp, s, front) && Edge(sp, s, front) + 1 < sp.size
    && Count(Col(sp, Edge(sp, s, front))) == 1 && Count(Col(sp, Edge(sp, s, front) + 1)) == 1
  }

  function MergeEnd<T>(sp: Spread<T>, s: nat, front: bool): Spread<T>
    requires s < |sp.lists| == |sp.lo|
  {
    if Lonely(sp, s, front) then Close(sp, Edge(sp, s, front)) else sp
  }

  function Pop<T>(sp: Spread<T>, s: nat, front: bool): Spread<T>
    requires Inside(sp) && s < |sp.lists| && sp.lists[s] != []
  {
    MergeEnd(Drop(Detach(sp, s, front), EndOf(sp, s, front)), s, front)
  }

  /** Why two reference counts of one allow a merge: one of the nodes is the
      source's own, so its only user is the source, and the source does not use the other. */
  lemma LonelyDisjoint<T>(sp: Spread<T>, s: nat, front: bool)
    requires Inside(sp) && s < |sp.lists| && Lonely(sp, s, front)
    ensures Disjoint(Col(sp, Edge(sp, s, front)), Col(sp, Edge(sp, s, front) + 1))
  {
    var left, right := Col(sp, Edge(sp, s, front)), Col(sp, Edge(sp, s, front) + 1);
    CountOne(if front then right else left, s);
  }

  lemma DropSound<T>(sp: Spread<T>, p: nat)
    requires Inside(sp) && p < sp.size
    requires forall i :: 0 <= i < sp.size && i != p ==> Count(Col(sp, i)) >= 1
    ensures Sound(Drop(sp, p))
  {
    if Count(Col(sp, p)) == 0 {
      CountNone(Col(sp, p));
      CloseMeaning(sp, p);
      if p + 1 < sp.size {
        assert Join(Col(sp, p), Col(sp, p + 1)) == Col(sp, p + 1);
      }
    }
  }

  // The joined node counts for both, the others count as before.
  lemma CloseCounts<T>(sp: Spread<T>, i: nat, j: nat)
    requires Inside(sp) && i + 1 < sp.size && Disjoint(Col(sp, i), Col(sp, i + 1)) && j < sp.size - 1
    ensures Count(Col(Close(sp, i), j)) ==
              if j < i then Count(Col(sp, j))
              else if j == i then Count(Col(sp, i)) + Count(Col(sp, i + 1))
              else Count(Col(sp, j + 1))
  {
    CloseMeaning(sp, i);
    CountJoin(Col(sp, i), Col(sp, i + 1));
  }

  lemma MergeEndSound<T>(sp: Spread<T>, s: nat, front: bool)
    requires Sound(sp) && s < |sp.lists|
    ensures Sound(MergeEnd(sp, s, front))
  {
    if Lonely(sp, s, front) {
      var i := Edge(sp, s, front);
      LonelyDisjoint(sp, s, front);
      CloseMeaning(sp, i);
      forall j | 0 <= j < sp.size - 1 ensures Count(Col(Close(sp, i), j)) >= 1 {
        CloseCounts(sp, i, j);
      }
    }
  }

  /** A pop loses one node or two at most, and keeps every run in one piece. */
  lemma PopSound<T>(sp: Spread<T>, s: nat, front: bool)
    requires Sound(sp) && s < |sp.lists| && sp.lists[s] != []
    ensures Sound(Pop(sp, s, front))
    ensures Pop(sp, s, front).lists == Detach(sp, s, front).lists
    ensures sp.size - 2 <= Pop(sp, s, front).size <= sp.size
  {
    DetachMeaning(sp, s, front);
    DropSound(Detach(sp, s, front), EndOf(sp, s, front));
    MergeEndSound(Drop(Detach(sp, s, front), EndOf(sp, s, front)), s, front);
  }

  /** How many sources use node i; nobody uses one outside the list. */
  function Users<T>(sp: Spread<T>, i: int): nat
    requires |sp.lists| == |sp.lo|
  {
    if 0 <= i < sp.size then Count(Col(sp, i)) else 0
  }

  lemma DetachUsers<T>(sp: Spread<T>, s: nat, front: bool, i: int)
    requires Inside(sp) && s < |sp.lists| && sp.lists[s] != []
    ensures Users(Detach(sp, s, front), i) == Users(sp, i) - if i == EndOf(sp, s, front) then 1 else 0
  {
    DetachMeaning(sp, s, front);
    var p := EndOf(sp, s, front);
    CountChange(Col(sp, p), s, None);
  }

  lemma DropUsers<T>(sp: Spread<T>, p: nat, i: int)
    requires Inside(sp) && p < sp.size
    ensures Users(Drop(sp, p), i) == Users(sp, if Users(sp, p) == 0 && i >= p then i + 1 else i)
  {
    CountNone(Col(sp, p));
    if Blank(Col(sp, p)) {
      CloseMeaning(sp, p);
      if i == p && p + 1 < sp.size {
        assert Join(Col(sp, p), Col(sp, p + 1)) == Col(sp, p + 1);
      }
    }
  }

  // Two users of one each beside each other, whichever way the source is read.
  lemma LonelyUsers<T>(sp: Spread<T>, s: nat, front: bool)
    requires Inside(sp) && s < |sp.lists| && sp.lists[s] != []
    ensures var p, out := EndOf(sp, s, front), if front then -1 else 1;
            Lonely(sp, s, front) <==> Users(sp, p) == 1 && Users(sp, p + out) == 1
  {
  }

  // Node p has one user less, and went if that was its last; this is what node i counts now.
  ghost predicate LessAt<T>(sp: Spread<T>, rest: Spread<T>, p: int, i: int)
    requires |sp.lists| == |sp.lo| && |rest.lists| == |rest.lo|
  {
    Users(rest, i) == if Users(sp, p) != 1 then Users(sp, i) - (if i == p then 1 else 0)
                      else if i < p then Users(sp, i) else Users(sp, i + 1)
  }

  ghost predicate OneUserLess<T>(sp: Spread<T>, rest: Spread<T>, p: int) {
    && |sp.lists| == |sp.lo| && |rest.lists| == |rest.lo| && Users(sp, p) >= 1
    && forall i :: LessAt(sp, rest, p, i)
  }

  lemma DetachLess<T>(sp: Spread<T>, s: nat, front: bool)
    requires Inside(sp) && s < |sp.lists| && sp.lists[s] != []
    ensures var p, rest := EndOf(sp, s, front), Drop(Detach(sp, s, front), EndOf(sp, s, front));
            OneUserLess(sp, rest, p) && rest.size == if Users(sp, p) == 1 then sp.size - 1 else sp.size
  {
    var p, less := EndOf(sp, s, front), Detach(sp, s, front);
    DetachMeaning(sp, s, front);
    DetachUsers(sp, s, front, p);
    CountOfUser(Col(sp, p), s);
    var rest := Drop(less, p);
    forall i ensures LessAt(sp, rest, p, i) {
      DetachUsers(sp, s, front, i);
      DetachUsers(sp, s, front, i + 1);
      DropUsers(less, p, i);
    }
  }

  lemma CountOfUser<T>(c: Column<T>, s: nat)
    requires s < |c| && c[s].Some?
    ensures Count(c) >= 1
  {
    CountChange(c, s, None);
  }

  // What a pop leaves before it looks for a merge.
  lemma BeforeMerge<T>(sp: Spread<T>, s: nat, front: bool) returns (rest: Spread<T>)
    requires Inside(sp) && s < |sp.lists| && sp.lists[s] != []
    ensures Inside(rest) && |rest.lists| == |sp.lists| && (rest.lists[s] == [] <==> |sp.lists[s]| == 1)
    ensures var p := EndOf(sp, s, front);
            && OneUserLess(sp, rest, p) && rest.size == (if Users(sp, p) == 1 then sp.size - 1 else sp.size)
            && EndOf(rest, s, front) == if !front then p - 1 else if Users(sp, p) == 1 then p else p + 1
    ensures Pop(sp, s, front) == MergeEnd(rest, s, front)
  {
    var p, less := EndOf(sp, s, front), Detach(sp, s, front);
    DetachMeaning(sp, s, front);
    DetachUsers(sp, s, front, p);
    DetachLess(sp, s, front);
    rest := Drop(less, p);
    if Users(less, p) == 0 {
      CountNone(Col(less, p));
      CloseMeaning(less, p);
    }
  }

  // The users of the node that its inner neighbour meets when p has lost one user.
  function Met<T>(sp: Spread<T>, p: int, outer: int): int
    requires |sp.lists| == |sp.lo|
  {
    if Users(sp, p) == 1 then Users(sp, outer) else Users(sp, p) - 1
  }

  // rest is what a pop leaves before it looks for a merge.
  lemma LonelyLeft<T>(sp: Spread<T>, rest: Spread<T>, s: nat, p: int, front: bool)
    requires Inside(rest) && s < |rest.lists| && OneUserLess(sp, rest, p)
    requires rest.lists[s] != [] ==>
               EndOf(rest, s, front) == if !front then p - 1 else if Users(sp, p) == 1 then p else p + 1
    ensures var way := if front then 1 else -1;
            Lonely(rest, s, front) <==>
              rest.lists[s] != [] && Users(sp, p + way) == 1 && Met(sp, p, p - way) == 1
  {
    if rest.lists[s] != [] {
      LonelyUsers(rest, s, front);
      assert LessAt(sp, rest, p, p - 1) && LessAt(sp, rest, p, p) && LessAt(sp, rest, p, p + 1);
    }
  }

  /** The size after a pop, told from the reference counts before it. */
  lemma PopSize<T>(sp: Spread<T>, s: nat, front: bool)
    requires Inside(sp) && s < |sp.lists| && sp.lists[s] != []
    ensures var p, way := EndOf(sp, s, front), if front then 1 else -1;
            Pop(sp, s, front).size ==
            sp.size - (if Users(sp, p) == 1 then 1 else 0)
            - if |sp.lists[s]| > 1 && Users(sp, p + way) == 1 && Met(sp, p, p - way) == 1 then 1 else 0
  {
    var rest := BeforeMerge(sp, s, front);
    LonelyLeft(sp, rest, s, EndOf(sp, s, front), front);
    assert Pop(sp, s, front).size == rest.size - if Lonely(rest, s, front) then 1 else 0;
  }

  /** After a pop the source's new end and its outer neighbour are not both of count one. */
  lemma PopSettles<T>(sp: Spread<T>, s: nat, front: bool)
    requires Inside(sp) && s < |sp.lists|
    ensures !Lonely(MergeEnd(sp, s, front), s, front)
  {
    if Lonely(sp, s, front) {
      var i := Edge(sp, s, front);
      LonelyDisjoint(sp, s, front);
      CloseCounts(sp, i, i);
    }
  }

  // ----- the same, for the grid

  lemma GrowPicture<T>(sp: Spread<T>, cols: Grid<T>, s: nat, x: T, p: nat, back: bool)
    requires Pictures(sp, cols) && s < |sp.lists| && p < sp.size
    requires p == if back then BackOf(sp, s) else FrontOf(sp, s)
    ensures |cols[p]| == |sp.lists| && cols[p][s].None?
    ensures Pictures(Grow(sp, s, x, p, back), cols[p := cols[p][s := Some(x)]])
  {
    GrowMeaning(sp, s, x, p, back);
  }

  lemma RoomPicture<T>(sp: Spread<T>, cols: Grid<T>)
    requires Pictures(sp, cols)
    ensures Pictures(Append(sp), cols + [Empty(|sp.lists|)])
    ensures Pictures(Prepend(sp), [Empty(|sp.lists|)] + cols)
  {
    AppendMeaning(sp);
    PrependMeaning(sp);
    assert Col(Append(sp), sp.size) == Empty<T>(|sp.lists|);
    assert Col(Prepend(sp), 0) == Empty<T>(|sp.lists|);
  }

  lemma DetachPicture<T>(sp: Spread<T>, cols: Grid<T>, s: nat, front: bool)
    requires Pictures(sp, cols) && s < |sp.lists| && sp.lists[s] != []
    ensures var p := EndOf(sp, s, front);
            && 0 <= p < |cols| == sp.size && |cols[p]| == |sp.lists|
            && cols[p][s] == Some(if front then sp.lists[s][0] else sp.lists[s][|sp.lists[s]| - 1])
            && Pictures(Detach(sp, s, front), cols[p := cols[p][s := None]])
  {
    DetachMeaning(sp, s, front);
  }

  lemma DropPicture<T>(sp: Spread<T>, cols: Grid<T>, i: nat)
    requires Pictures(sp, cols) && i < |cols| && Count(cols[i]) == 0
    ensures Blank(Col(sp, i)) && Pictures(Close(sp, i), Without(cols, i))
  {
    CountNone(Col(sp, i));
    CloseMeaning(sp, i);
    if i + 1 < sp.size {
      assert Join(Col(sp, i), Col(sp, i + 1)) == Col(sp, i + 1);
    }
  }

  lemma MergePicture<T>(sp: Spread<T>, cols: Grid<T>, i: nat)
    requires Pictures(sp, cols) && i + 1 < |cols| && Disjoint(cols[i], cols[i + 1])
    ensures |cols[i]| == |cols[i + 1]| && Pictures(Close(sp, i), JoinAt(cols, i))
  {
    CloseMeaning(sp, i);
    JoinAtCells(cols, i);
  }

  // ----- the list read as a grid

  /** Reading one source across the list gives its records in order. */
  lemma ReadsBack<T>(sp: Spread<T>, s: nat)
    requires Inside(sp) && s < |sp.lists|
    ensures Project(Columns(sp), s) == sp.lists[s]
  {
    ReadsBackUpTo(sp, s, sp.size);
    assert Columns(sp)[..sp.size] == Columns(sp);
  }

  // How much of a run of n nodes from lo on lies before node k.
  function Clip(lo: int, n: nat, k: nat): nat {
    if n == 0 || k <= lo then 0 else if k >= lo + n then n else k - lo
  }

  lemma {:induction false} ReadsBackUpTo<T>(sp: Spread<T>, s: nat, k: nat)
    requires Inside(sp) && s < |sp.lists| && k <= sp.size
    ensures Project(Columns(sp)[..k], s) == sp.lists[s][..Clip(sp.lo[s], |sp.lists[s]|, k)]
  {
    if k > 0 {
      ReadsBackUpTo(sp, s, k - 1);
      assert Columns(sp)[..k][..k - 1] == Columns(sp)[..k - 1];
    }
  }

  // ----- what the sharing saves

  function Elements<T>(lists: seq<seq<T>>): nat {
    if lists == [] then 0 else Elements(lists[..|lists| - 1]) + |lists[|lists| - 1]|
  }

  /** The sum of the first k reference counts. */
  function Counts<T>(sp: Spread<T>, k: nat): nat
    requires |sp.lists| == |sp.lo|
  {
    if k == 0 then 0 else Counts(sp, k - 1) + Count(Col(sp, k - 1))
  }

  // The spread of the first m sources.
  function Narrow<T>(sp: Spread<T>, m: nat): Spread<T>
    requires m <= |sp.lists| == |sp.lo|
  {
    sp.(lists := sp.lists[..m], lo := sp.lo[..m])
  }

  lemma CountOfOneMore<T>(sp: Spread<T>, m: nat, i: nat)
    requires Inside(sp) && m < |sp.lists| && i < sp.size
    ensures Count(Col(Narrow(sp, m + 1), i)) == Count(Col(Narrow(sp, m), i)) + if Covers(sp, m, i) then 1 else 0
  {
    assert Col(Narrow(sp, m + 1), i)[..m] == Col(Narrow(sp, m), i);
  }

  lemma {:induction false} CountsOfOneMore<T>(sp: Spread<T>, m: nat, k: nat)
    requires Inside(sp) && m < |sp.lists| && k <= sp.size
    ensures Counts(Narrow(sp, m + 1), k) == Counts(Narrow(sp, m), k) + Clip(sp.lo[m], |sp.lists[m]|, k)
  {
    if k > 0 {
      CountsOfOneMore(sp, m, k - 1);
      CountOfOneMore(sp, m, k - 1);
    }
  }

  lemma {:induction false} CountsOfFirst<T>(sp: Spread<T>, m: nat)
    requires Inside(sp) && m <= |sp.lists|
    ensures Counts(Narrow(sp, m), sp.size) == Elements(sp.lists[..m])
  {
    if m == 0 {
      NothingCounted(Narrow(sp, 0), sp.size);
    } else {
      CountsOfFirst(sp, m - 1);
      CountsOfOneMore(sp, m - 1, sp.size);
      assert sp.lists[..m][..m - 1] == sp.lists[..m - 1];
    }
  }

  lemma {:induction false} NothingCounted<T>(sp: Spread<T>, k: nat)
    requires sp.lists == [] && sp.lo == []
    ensures Counts(sp, k) == 0
  {
    if k > 0 {
      NothingCounted(sp, k - 1);
    }
  }

  // k counts of at least one each.
  lemma {:induction false} CountsAtLeast<T>(sp: Spread<T>, k: nat)
    requires Sound(sp) && k <= sp.size
    ensures Counts(sp, k) >= k
    ensures Counts(sp, k) == k <==> forall i :: 0 <= i < k ==> Count(Col(sp, i)) == 1
  {
    if k > 0 {
      CountsAtLeast(sp, k - 1);
    }
  }

  /** The reference counts add up to the elements, so there are never more nodes
      than elements; and there are fewer exactly when some node is shared. */
  lemma NodesBounded<T>(sp: Spread<T>)
    requires Sound(sp)
    ensures Counts(sp, sp.size) == Elements(sp.lists)
    ensures sp.size <= Elements(sp.lists)
    ensures sp.size < Elements(sp.lists) <==> exists i :: 0 <= i < sp.size && Count(Col(sp, i)) >= 2
  {
    assert Narrow(sp, |sp.lists|) == sp;
    assert sp.lists[..|sp.lists|] == sp.lists;
    CountsOfFirst(sp, |sp.lists|);
    CountsAtLeast(sp, sp.size);
  }

  /** So the sharing is not for free: two pushes by one source alone share nothing. */
  lemma NoSharing<T>(n: nat, x: T, y: T)
    requires n >= 2
    ensures var empty: Spread<T> := Spread(0, seq(n, _ => []), seq(n, _ => 0));
            var sp := PushBack(PushBack(empty, 0, x), 0, y);
            sp.size == 2 == Elements(sp.lists)
  {
    var empty: Spread<T> := Spread(0, seq(n, _ => []), seq(n, _ => 0));
    var one := PushBack(empty, 0, x);
    assert one.lists[0] == [x] && one.lo[0] == 0 && one.size == 1;
    var two := PushBack(one, 0, y);
    assert two.lists[0] == [x, y] && two.size == 2;
    ElementsOfFirst(two.lists, n);
    assert two.lists[..n] == two.lists;
  }

  lemma {:induction false} ElementsOfFirst<T>(lists: seq<seq<T>>, m: nat)
    requires 0 < m <= |lists| && forall s :: 0 < s < |lists| ==> lists[s] == []
    ensures Elements(lists[..m]) == |lists[0]|
  {
    assert lists[..m][..m - 1] == lists[..m - 1];
    if m > 1 {
      ElementsOfFirst(lists, m - 1);
    }
  }

  // ----- whole runs

  datatype Move<+T> = AtBack(s: nat, x: T) | AtFront(s: nat, x: T) | OffFront(s: nat) | OffBack(s: nat)

  /** A move as the deque makes it; one that fails changes nothing. */
  ghost function Moved<T>(sp: Spread<T>, m: Move<T>): (end: Spread<T>)
    requires Sound(sp)
    ensures Sound(end) && end.lists == Plainly(sp.lists, m)
  {
    if m.s >= |sp.lists| then sp
    else
      match m
      case AtBack(s, x) => PushSound(sp, s, x); PushBack(sp, s, x)
      case AtFront(s, x) => PushSound(sp, s, x); PushFront(sp, s, x)
      case OffFront(s) => if sp.lists[s] == [] then sp else PopSound(sp, s, true); Pop(sp, s, true)
      case OffBack(s) => if sp.lists[s] == [] then sp else PopSound(sp, s, false); Pop(sp, s, false)
  }

  /** The same move on separate, unfused lists. */
  function Plainly<T>(lists: seq<seq<T>>, m: Move<T>): (now: seq<seq<T>>)
    ensures |now| == |lists|
  {
    if m.s >= |lists| then lists
    else
      var list := lists[m.s];
      match m
      case AtBack(s, x) => lists[s := list + [x]]
      case AtFront(s, x) => lists[s := [x] + list]
      case OffFront(s) => if list == [] then lists else lists[s := list[1..]]
      case OffBack(s) => if list == [] then lists else lists[s := list[..|list| - 1]]
  }

  ghost function MovedAll<T>(sp: Spread<T>, moves: seq<Move<T>>): (end: Spread<T>)
    requires Sound(sp)
    ensures Sound(end)
  {
    if moves == [] then sp else Moved(MovedAll(sp, moves[..|moves| - 1]), moves[|moves| - 1])
  }

  function PlainlyAll<T>(lists: seq<seq<T>>, moves: seq<Move<T>>): (end: seq<seq<T>>)
    ensures |end| == |lists|
  {
    if moves == [] then lists else Plainly(PlainlyAll(lists, moves[..|moves| - 1]), moves[|moves| - 1])
  }

  /** Over any run of pushes and pops by any sources, reading a source off the
      fused list gives what the plain list would be. */
  lemma RunsLikePlainLists<T>(sp: Spread<T>, moves: seq<Move<T>>, s: nat)
    requires Sound(sp) && s < |sp.lists|
    ensures var end := MovedAll(sp, moves);
            && |end.lists| == |sp.lists|
            && Project(Columns(end), s) == PlainlyAll(sp.lists, moves)[s]
            && end.size <= Elements(PlainlyAll(sp.lists, moves))
  {
    ListsAfter(sp, moves);
    ReadsBack(MovedAll(sp, moves), s);
    NodesBounded(MovedAll(sp, moves));
  }

  lemma {:induction false} ListsAfter<T>(sp: Spread<T>, moves: seq<Move<T>>)
    requires Sound(sp)
    ensures MovedAll(sp, moves).lists == PlainlyAll(sp.lists, moves)
  {
    if moves != [] {
      ListsAfter(sp, moves[..|moves| - 1]);
    }
  }
}
