/** The meaning of a bit-field fused list, free of pointers.

    A node with its bit field stands for a column: one optional record for each
    source, present exactly where the bit is set.  The list is a grid, a sequence
    of columns.  Reading one source across the grid, left to right, gives back
    that source's records, so "the i-th node carrying bit s holds the i-th record
    of source s" is the definition of Project.  The value in the node is the
    exclusive-or of its column (Payload).

    structures/linkedlist.go and the buckets of structures/kvhashtable.go are
    two copies of the same list; both are described by these functions. */
module Grids {
  import opened Words

  datatype Option<+T> = None | Some(value: T)

  type Column<T> = seq<Option<T>>
  type Grid<T> = seq<Column<T>>

  function At<T>(c: Column<T>, s: nat): Option<T> {
    if s < |c| then c[s] else None
  }

  function Items<T>(o: Option<T>): seq<T> {
    if o.Some? then [o.value] else []
  }

  /** The records of source s, in list order. */
  function Project<T>(g: Grid<T>, s: nat): seq<T> {
    if g == [] then [] else Project(g[..|g| - 1], s) + Items(At(g[|g| - 1], s))
  }

  function Bits<T>(c: Column<T>): seq<bool> {
    seq(|c|, s requires 0 <= s < |c| => c[s].Some?)
  }

  function Summands<T>(ops: XorOps<T>, c: Column<T>): seq<T> {
    seq(|c|, s requires 0 <= s < |c| => if c[s].Some? then c[s].value else ops.zero)
  }

  /** What the node stores. */
  function Payload<T>(ops: XorOps<T>, c: Column<T>): T {
    Fold(ops, Summands(ops, c))
  }

  ghost predicate Wide<T>(g: Grid<T>, n: nat) {
    forall i :: 0 <= i < |g| ==> |g[i]| == n
  }

  predicate Blank<T>(c: Column<T>) {
    forall s :: 0 <= s < |c| ==> c[s].None?
  }

  predicate Disjoint<T>(a: Column<T>, b: Column<T>) {
    forall s :: 0 <= s < |a| && s < |b| ==> a[s].None? || b[s].None?
  }

  /** Every node carries a bit, and neighbouring nodes share one. */
  ghost predicate Tight<T>(g: Grid<T>) {
    && (forall i :: 0 <= i < |g| ==> !Blank(g[i]))
    && (forall i :: 0 < i < |g| ==> !Disjoint(g[i - 1], g[i]))
  }

  // ----- projections

  lemma {:induction false} ProjectAppend<T>(a: Grid<T>, b: Grid<T>, s: nat)
    ensures Project(a + b, s) == Project(a, s) + Project(b, s)
  {
    if b == [] {
      assert a + b == a;
    } else {
      assert (a + b)[..|a + b| - 1] == a + b[..|b| - 1];
      ProjectAppend(a, b[..|b| - 1], s);
    }
  }

  lemma ProjectSplit<T>(g: Grid<T>, i: nat, s: nat)
    requires i < |g|
    ensures Project(g[..i + 1], s) == Project(g[..i], s) + Items(At(g[i], s))
    ensures Project(g, s) == Project(g[..i], s) + Items(At(g[i], s)) + Project(g[i + 1..], s)
  {
    assert g[..i + 1][..i] == g[..i];
    assert g == g[..i + 1] + g[i + 1..];
    ProjectAppend(g[..i + 1], g[i + 1..], s);
  }

  lemma ProjectNext<T>(g: Grid<T>, i: nat, s: nat)
    requires i < |g|
    ensures Project(g[..i + 1], s) == Project(g[..i], s) + Items(At(g[i], s))
  {
    assert g[..i + 1][..i] == g[..i];
  }

  lemma Splice<T>(a: seq<T>, b: seq<T>, c: seq<T>, mid: seq<T>, whole: seq<T>)
    requires whole == a + b + c
    ensures a + mid + c == whole[..|a|] + mid + whole[|a| + |b|..]
  {
    assert whole[..|a|] == a;
    assert whole[|a| + |b|..] == c;
  }

  lemma Parts<T>(s: seq<T>, i: nat)
    requires i <= |s|
    ensures s == s[..i] + s[i..]
    ensures forall x :: i < |s| ==> s[i := x] == s[..i] + [x] + s[i + 1..]
  {
  }

  lemma EmptyMiddle<T>(a: seq<T>, b: seq<T>)
    ensures a + [] + b == a + b
  {
  }

  lemma ProjectOne<T>(c: Column<T>, s: nat)
    ensures Project([c], s) == Items(At(c, s))
  {
    assert [c][..0] == [];
  }

  lemma ProjectThree<T>(a: Grid<T>, b: Grid<T>, c: Grid<T>, s: nat)
    ensures Project(a + b + c, s) == Project(a, s) + Project(b, s) + Project(c, s)
  {
    ProjectAppend(a + b, c, s);
    ProjectAppend(a, b, s);
  }

  /** Changing the column at i changes a source by what the two columns hold for it. */
  lemma ChangeMeaning<T>(g: Grid<T>, i: nat, c: Column<T>, s: nat)
    requires i < |g|
    ensures var k, was := |Project(g[..i], s)|, Items(At(g[i], s));
            && k + |was| <= |Project(g, s)|
            && Project(g[i := c], s) == Project(g, s)[..k] + Items(At(c, s)) + Project(g, s)[k + |was|..]
  {
    Parts(g, i);
    ProjectThree(g[..i], [c], g[i + 1..], s);
    ProjectOne(c, s);
    ProjectSplit(g, i, s);
    Splice(Project(g[..i], s), Items(At(g[i], s)), Project(g[i + 1..], s), Items(At(c, s)), Project(g, s));
  }

  lemma SameChange<T>(g: Grid<T>, i: nat, c: Column<T>, s: nat)
    requires i < |g| && At(c, s) == At(g[i], s)
    ensures Project(g[i := c], s) == Project(g, s)
  {
    ChangeMeaning(g, i, c, s);
    ChangeMeaning(g, i, g[i], s);
    assert g[i := g[i]] == g;
  }

  /** A new column adds its records where it goes in. */
  lemma ColumnMeaning<T>(g: Grid<T>, i: nat, c: Column<T>, t: nat)
    requires i <= |g|
    ensures |Project(g[..i], t)| <= |Project(g, t)|
    ensures Project(g[..i] + [c] + g[i..], t)
         == Project(g, t)[..|Project(g[..i], t)|] + Items(At(c, t)) + Project(g, t)[|Project(g[..i], t)|..]
  {
    ProjectThree(g[..i], [c], g[i..], t);
    ProjectOne(c, t);
    var a, b := Project(g[..i], t), Project(g[i..], t);
    Parts(g, i);
    ProjectAppend(g[..i], g[i..], t);
    assert a + [] == a;
    Splice(a, [], b, Items(At(c, t)), Project(g, t));
  }

  lemma ProjectMonotone<T>(g: Grid<T>, i: nat, j: nat, s: nat)
    requires i <= j <= |g|
    ensures |Project(g[..i], s)| <= |Project(g[..j], s)| <= |Project(g, s)|
  {
    assert g[..j] == g[..i] + g[i..j];
    ProjectAppend(g[..i], g[i..j], s);
    assert g == g[..j] + g[j..];
    ProjectAppend(g[..j], g[j..], s);
  }

  /** The record under the i-th node is the one whose index is the number of
      nodes before it that carry the same bit. */
  lemma AlignedRecord<T>(g: Grid<T>, s: nat, i: nat)
    requires i < |g| && At(g[i], s).Some?
    ensures |Project(g[..i], s)| < |Project(g, s)|
    ensures Project(g, s)[|Project(g[..i], s)|] == At(g[i], s).value
  {
    ProjectSplit(g, i, s);
  }

  lemma {:induction false} SourceFits<T>(g: Grid<T>, s: nat)
    ensures |Project(g, s)| <= |g|
  {
    if g != [] {
      SourceFits(g[..|g| - 1], s);
    }
  }

  // ----- payloads

  lemma PayloadSet<T(!new)>(ops: XorOps<T>, c: Column<T>, s: nat, x: T)
    requires Lawful(ops) && s < |c|
    ensures c[s].None? ==> Payload(ops, c[s := Some(x)]) == Xor(ops, Payload(ops, c), x)
    ensures c[s] == Some(x) ==> Payload(ops, c[s := None]) == Xor(ops, Payload(ops, c), x)
    ensures forall y :: c[s] == Some(y) ==>
              Payload(ops, c[s := Some(x)]) == Replace(ops, Payload(ops, c), y, x)
  {
    var w := Summands(ops, c);
    assert Summands(ops, c[s := Some(x)]) == w[s := x];
    assert Summands(ops, c[s := None]) == w[s := ops.zero];
    FoldReplace(ops, w, s, x);
    FoldReplace(ops, w, s, ops.zero);
  }

  /** Adding d to the node adds d to whichever one of its records one wishes. */
  lemma PayloadAdjust<T(!new)>(ops: XorOps<T>, c: Column<T>, s: nat, d: T)
    requires Lawful(ops) && s < |c| && c[s].Some?
    ensures Payload(ops, c[s := Some(Xor(ops, c[s].value, d))]) == Xor(ops, Payload(ops, c), d)
  {
    var p, x := Payload(ops, c), c[s].value;
    PayloadSet(ops, c, s, Xor(ops, x, d));
    assert Regroup(Xor(ops, p, x), x, d);
    Cancel(ops, p, x);
  }

  /** A column without the records of the sources in done. */
  function Mask<T>(c: Column<T>, done: set<int>): Column<T> {
    seq(|c|, s requires 0 <= s < |c| => if s in done then None else c[s])
  }

  lemma PayloadMask<T(!new)>(ops: XorOps<T>, c: Column<T>, done: set<int>, s: nat)
    requires Lawful(ops) && s < |c| && s !in done
    ensures Payload(ops, Mask(c, done + {s}))
         == if c[s].Some? then Xor(ops, Payload(ops, Mask(c, done)), c[s].value) else Payload(ops, Mask(c, done))
  {
    var m := Mask(c, done);
    assert Mask(c, done + {s}) == m[s := None];
    if c[s].Some? {
      PayloadSet(ops, m, s, c[s].value);
    } else {
      assert m[s := None] == m;
    }
  }

  function Empty<T>(n: nat): Column<T> {
    seq(n, _ => None)
  }

  lemma PayloadBlank<T(!new)>(ops: XorOps<T>, c: Column<T>)
    requires Lawful(ops) && Blank(c)
    ensures Payload(ops, c) == ops.zero
  {
    FoldZeros(ops, Summands(ops, c));
  }

  lemma PayloadEmpty<T(!new)>(ops: XorOps<T>, n: nat)
    requires Lawful(ops)
    ensures Payload(ops, Empty(n)) == ops.zero
  {
    PayloadBlank(ops, Empty<T>(n));
  }

  /** Both columns' records in one column, as Merge() leaves them. */
  function Join<T>(a: Column<T>, b: Column<T>): Column<T> {
    seq(|a|, s requires 0 <= s < |a| => if a[s].Some? then a[s] else At(b, s))
  }

  lemma PayloadJoin<T(!new)>(ops: XorOps<T>, a: Column<T>, b: Column<T>)
    requires Lawful(ops) && |a| == |b| && Disjoint(a, b)
    ensures Payload(ops, Join(a, b)) == Xor(ops, Payload(ops, a), Payload(ops, b))
  {
    var wa, wb, w := Summands(ops, a), Summands(ops, b), Summands(ops, Join(a, b));
    forall s | 0 <= s < |w| ensures w[s] == Xor(ops, wa[s], wb[s]) {
      ZeroLeft(ops, wb[s]);
    }
    FoldPointwise(ops, wa, wb, w);
  }

  /** A column from which everything but one record was taken out. */
  lemma PayloadOnly<T(!new)>(ops: XorOps<T>, c: Column<T>, s: nat)
    requires Lawful(ops) && s < |c| && c[s].Some?
    requires forall t :: 0 <= t < |c| && t != s ==> c[t].None?
    ensures Payload(ops, c) == c[s].value
  {
    FoldOnly(ops, Summands(ops, c), s);
  }

  // ----- Insert

  /** c is just past the k-th node of source s, or the head when k is 0. */
  ghost predicate IsCut<T>(g: Grid<T>, s: nat, k: nat, c: nat) {
    && c <= |g|
    && |Project(g[..c], s)| == k
    && (c == 0 || At(g[c - 1], s).Some?)
  }

  ghost function Cut<T>(g: Grid<T>, s: nat, k: nat): (c: nat)
    requires k <= |Project(g, s)|
    ensures IsCut(g, s, k, c)
  {
    if k == 0 then
      0
    else if k <= |Project(g[..|g| - 1], s)| then
      var c := Cut(g[..|g| - 1], s, k);
      assert g[..|g| - 1][..c] == g[..c];
      c
    else
      assert g[..|g|] == g;
      |g|
  }

  lemma CutUnique<T>(g: Grid<T>, s: nat, k: nat, c: nat)
    requires k <= |Project(g, s)| && IsCut(g, s, k, c)
    ensures c == Cut(g, s, k)
  {
    CutOrder(g, s, k, c, Cut(g, s, k));
    CutOrder(g, s, k, Cut(g, s, k), c);
  }

  lemma OneLonger<T>(g: Grid<T>, i: nat, s: nat)
    requires i < |g| && At(g[i], s).Some?
    ensures |Project(g[..i + 1], s)| == |Project(g[..i], s)| + 1
  {
    ProjectSplit(g, i, s);
  }

  lemma CutOrder<T>(g: Grid<T>, s: nat, k: nat, c: nat, d: nat)
    requires IsCut(g, s, k, c) && IsCut(g, s, k, d)
    ensures d <= c
  {
    if c < d {
      ProjectMonotone(g, c, d - 1, s);
      OneLonger(g, d - 1, s);
    }
  }

  /** A walk from the head has reached node i; c is just past the last of the
      seen nodes that carry bit s. */
  ghost predicate Scan<T>(g: Grid<T>, s: nat, seen: nat, c: nat, i: nat) {
    && c <= i <= |g| && IsCut(g, s, seen, c)
    && |Project(g[..i], s)| == seen
    && forall j :: c <= j < i ==> At(g[j], s).None?
  }

  lemma ScanStep<T>(g: Grid<T>, s: nat, seen: nat, c: nat, i: nat)
    requires Scan(g, s, seen, c, i) && i < |g|
    ensures At(g[i], s).Some? ==> Scan(g, s, seen + 1, i + 1, i + 1) && seen < |Project(g, s)|
    ensures At(g[i], s).None? ==> Scan(g, s, seen, c, i + 1)
  {
    ProjectSplit(g, i, s);
  }

  lemma ScanDone<T>(g: Grid<T>, s: nat, k: nat, seen: nat, c: nat, i: nat)
    requires Scan(g, s, seen, c, i) && seen <= k <= |Project(g, s)|
    requires i == |g| || seen == k
    ensures c == Cut(g, s, k)
  {
    assert g[..|g|] == g;
    CutUnique(g, s, k, c);
  }

  /** Insert of x as the k-th record of source s: the node after the cut takes
      it if its bit is free, else a new node does. */
  ghost function Insert<T>(g: Grid<T>, n: nat, s: nat, k: nat, x: T): Grid<T>
    requires Wide(g, n) && s < n && k <= |Project(g, s)|
  {
    var c := Cut(g, s, k);
    if c < |g| && g[c][s].None? then g[c := g[c][s := Some(x)]]
    else g[..c] + [Empty(n)[s := Some(x)]] + g[c..]
  }

  lemma InsertInNewNode<T>(g: Grid<T>, n: nat, s: nat, k: nat, x: T)
    requires Wide(g, n) && s < n && k <= |Project(g, s)|
    ensures var c := Cut(g, s, k);
            c == |g| || g[c][s].Some? ==>
              var blank: Column<T> := Empty(n);
              Insert(g, n, s, k, x) == (g[..c] + [blank] + g[c..])[c := blank[s := Some(x)]]
  {
    Refill(g, Cut(g, s, k), Empty(n), Empty(n)[s := Some(x)]);
  }

  lemma Refill<T>(a: seq<T>, c: nat, x: T, y: T)
    requires c <= |a|
    ensures (a[..c] + [x] + a[c..])[c := y] == a[..c] + [y] + a[c..]
  {
  }

  lemma InsertMeaning<T>(g: Grid<T>, n: nat, s: nat, k: nat, x: T)
    requires Wide(g, n) && s < n && k <= |Project(g, s)|
    ensures Wide(Insert(g, n, s, k, x), n)
    ensures Project(Insert(g, n, s, k, x), s) == Project(g, s)[..k] + [x] + Project(g, s)[k..]
    ensures forall t: nat :: t != s ==> Project(Insert(g, n, s, k, x), t) == Project(g, t)
    ensures |g| <= |Insert(g, n, s, k, x)| <= |g| + 1
  {
    InsertWide(g, n, s, k, x);
    InsertSource(g, n, s, k, x);
    forall t: nat | t != s ensures Project(Insert(g, n, s, k, x), t) == Project(g, t) {
      InsertOther(g, n, s, k, x, t);
    }
  }

  lemma InsertSource<T>(g: Grid<T>, n: nat, s: nat, k: nat, x: T)
    requires Wide(g, n) && s < n && k <= |Project(g, s)|
    ensures Project(Insert(g, n, s, k, x), s) == Project(g, s)[..k] + [x] + Project(g, s)[k..]
  {
    var c := Cut(g, s, k);
    if c < |g| && g[c][s].None? {
      ChangeMeaning(g, c, g[c][s := Some(x)], s);
    } else {
      ColumnMeaning(g, c, Empty(n)[s := Some(x)], s);
    }
  }

  lemma InsertOther<T>(g: Grid<T>, n: nat, s: nat, k: nat, x: T, t: nat)
    requires Wide(g, n) && s < n && k <= |Project(g, s)| && t != s
    ensures Project(Insert(g, n, s, k, x), t) == Project(g, t)
  {
    var c := Cut(g, s, k);
    if c < |g| && g[c][s].None? {
      SameChange(g, c, g[c][s := Some(x)], t);
    } else {
      var col: Column<T> := Empty(n)[s := Some(x)];
      ColumnMeaning(g, c, col, t);
      var p, d := Project(g, t), |Project(g[..c], t)|;
      EmptyMiddle(p[..d], p[d..]);
      Parts(p, d);
    }
  }

  lemma WideColumn<T>(g: Grid<T>, n: nat, i: nat, c: Column<T>)
    requires Wide(g, n) && i <= |g| && |c| == n
    ensures Wide(g[..i] + [c] + g[i..], n)
  {
  }

  lemma InsertWide<T>(g: Grid<T>, n: nat, s: nat, k: nat, x: T)
    requires Wide(g, n) && s < n && k <= |Project(g, s)|
    ensures Wide(Insert(g, n, s, k, x), n)
  {
    var c := Cut(g, s, k);
    WideColumn(g, n, c, Empty(n)[s := Some(x)]);
  }

  lemma Sharing<T>(a: Column<T>, b: Column<T>, s: nat)
    requires At(a, s).Some? && At(b, s).Some?
    ensures !Disjoint(a, b) && !Blank(a) && !Blank(b)
  {
  }

  /** A new node is placed only between nodes that carry its bit, or next to one at an end. */
  lemma InsertTight<T>(g: Grid<T>, n: nat, s: nat, k: nat, x: T)
    requires Wide(g, n) && s < n && k <= |Project(g, s)| && Tight(g)
    ensures Tight(Insert(g, n, s, k, x))
  {
    var c := Cut(g, s, k);
    if c < |g| && g[c][s].None? {
      SetTight(g, c, s, x);
    } else {
      var col: Column<T> := Empty(n)[s := Some(x)];
      assert At(col, s).Some?;
      ColumnTight(g, c, col, s);
    }
  }

  lemma SetTight<T>(g: Grid<T>, i: nat, s: nat, x: T)
    requires Tight(g) && i < |g| && s < |g[i]|
    ensures Tight(g[i := g[i][s := Some(x)]])
  {
    var c := g[i][s := Some(x)];
    Sharing(c, c, s);
    if i > 0 {
      var t :| 0 <= t < |g[i - 1]| && t < |g[i]| && !(g[i - 1][t].None? || g[i][t].None?);
      Sharing(g[i - 1], c, t);
    }
    if i + 1 < |g| {
      assert !Disjoint(g[i + 1 - 1], g[i + 1]);
      var t :| 0 <= t < |g[i]| && t < |g[i + 1]| && !(g[i][t].None? || g[i + 1][t].None?);
      Sharing(c, g[i + 1], t);
    }
  }

  lemma ColumnTight<T>(g: Grid<T>, i: nat, c: Column<T>, s: nat)
    requires Tight(g) && i <= |g| && At(c, s).Some?
    requires i > 0 ==> At(g[i - 1], s).Some?
    requires i < |g| ==> At(g[i], s).Some?
    ensures Tight(g[..i] + [c] + g[i..])
  {
    var r := g[..i] + [c] + g[i..];
    Sharing(c, c, s);
    if i > 0 {
      Sharing(g[i - 1], c, s);
    }
    if i < |g| {
      Sharing(c, g[i], s);
    }
    assert forall j :: 0 <= j < i ==> r[j] == g[j];
    assert forall j :: i < j < |r| ==> r[j] == g[j - 1];
  }

  // ----- merging

  function Without<T>(g: Grid<T>, i: nat): Grid<T>
    requires i < |g|
  {
    g[..i] + g[i + 1..]
  }

  /** Merge(): node i takes over node i + 1. */
  function JoinAt<T>(g: Grid<T>, i: nat): Grid<T>
    requires i + 1 < |g|
  {
    Without(g[i := Join(g[i], g[i + 1])], i + 1)
  }

  /** The first loop of mergeNodes: the grid and the position of the node it ends on. */
  function MergeLeft<T>(g: Grid<T>, i: nat): (r: (Grid<T>, nat))
    requires i < |g|
    ensures r.1 < |r.0|
    decreases i
  {
    if i > 0 && Disjoint(g[i - 1], g[i]) then MergeLeft(JoinAt(g, i - 1), i - 1) else (g, i)
  }

  /** The second loop of mergeNodes. */
  function MergeRight<T>(g: Grid<T>, i: nat): Grid<T>
    requires i < |g|
    decreases |g|
  {
    if i + 1 < |g| && Disjoint(g[i], g[i + 1]) then MergeRight(JoinAt(g, i), i) else g
  }

  function MergeAround<T>(g: Grid<T>, i: nat): Grid<T>
    requires i < |g|
  {
    var (left, j) := MergeLeft(g, i);
    MergeRight(left, j)
  }

  /** mergeNodes on node i. */
  function MergeNodes<T>(g: Grid<T>, i: nat): Grid<T>
    requires i < |g|
  {
    if !Blank(g[i]) then MergeAround(g, i)
    else if |g| == 1 then []
    else MergeAround(Without(g, i), if i > 0 then i - 1 else 0)
  }

  lemma WithoutBlank<T>(g: Grid<T>, i: nat, s: nat)
    requires i < |g| && At(g[i], s).None?
    ensures Project(Without(g, i), s) == Project(g, s)
  {
    ProjectSplit(g, i, s);
    ProjectAppend(g[..i], g[i + 1..], s);
    EmptyMiddle(Project(g[..i], s), Project(g[i + 1..], s));
  }

  lemma JoinAtMeaning<T>(g: Grid<T>, i: nat, n: nat, s: nat)
    requires i + 1 < |g| && Wide(g, n) && Disjoint(g[i], g[i + 1])
    ensures Wide(JoinAt(g, i), n)
    ensures Project(JoinAt(g, i), s) == Project(g, s)
  {
    JoinAtCells(g, i);
    JoinAtProject(g, i, s);
  }

  lemma JoinAtProject<T>(g: Grid<T>, i: nat, s: nat)
    requires i + 1 < |g| && |g[i]| == |g[i + 1]| && Disjoint(g[i], g[i + 1])
    ensures Project(JoinAt(g, i), s) == Project(g, s)
  {
    var c, pair := Join(g[i], g[i + 1]), [g[i], g[i + 1]];
    JoinAtParts(g, i);
    ProjectThree(g[..i], [c], g[i + 2..], s);
    ProjectThree(g[..i], pair, g[i + 2..], s);
    ProjectPair(g[i], g[i + 1], s);
    ProjectOne(c, s);
    assert Items(At(c, s)) == Items(At(g[i], s)) + Items(At(g[i + 1], s));
  }

  lemma JoinAtParts<T>(g: Grid<T>, i: nat)
    requires i + 1 < |g|
    ensures g == g[..i] + [g[i], g[i + 1]] + g[i + 2..]
    ensures JoinAt(g, i) == g[..i] + [Join(g[i], g[i + 1])] + g[i + 2..]
  {
  }

  lemma ProjectPair<T>(a: Column<T>, b: Column<T>, s: nat)
    ensures Project([a, b], s) == Items(At(a, s)) + Items(At(b, s))
  {
    assert [a, b] == [a] + [b];
    ProjectAppend([a], [b], s);
    ProjectOne(a, s);
    ProjectOne(b, s);
  }

  lemma {:induction false} MergeLeftMeaning<T>(g: Grid<T>, i: nat, n: nat, s: nat)
    requires i < |g| && Wide(g, n)
    ensures Wide(MergeLeft(g, i).0, n) && Project(MergeLeft(g, i).0, s) == Project(g, s)
    decreases i
  {
    if i > 0 && Disjoint(g[i - 1], g[i]) {
      JoinAtMeaning(g, i - 1, n, s);
      MergeLeftMeaning(JoinAt(g, i - 1), i - 1, n, s);
    }
  }

  lemma {:induction false} MergeRightMeaning<T>(g: Grid<T>, i: nat, n: nat, s: nat)
    requires i < |g| && Wide(g, n)
    ensures Wide(MergeRight(g, i), n) && Project(MergeRight(g, i), s) == Project(g, s)
    decreases |g|
  {
    if i + 1 < |g| && Disjoint(g[i], g[i + 1]) {
      JoinAtMeaning(g, i, n, s);
      MergeRightMeaning(JoinAt(g, i), i, n, s);
    }
  }

  /** However many nodes it removes, mergeNodes keeps every source. */
  lemma MergeNodesMeaning<T>(g: Grid<T>, i: nat, n: nat, s: nat)
    requires i < |g| && Wide(g, n)
    ensures Wide(MergeNodes(g, i), n) && Project(MergeNodes(g, i), s) == Project(g, s)
  {
    var h, j := g, i;
    if Blank(g[i]) {
      WithoutBlank(g, i, s);
      if |g| == 1 {
        assert Without(g, i) == [];
        return;
      }
      h, j := Without(g, i), if i > 0 then i - 1 else 0;
    }
    MergeLeftMeaning(h, j, n, s);
    MergeRightMeaning(MergeLeft(h, j).0, MergeLeft(h, j).1, n, s);
  }

  /** Tight everywhere except around node i. */
  ghost predicate TightBut<T>(g: Grid<T>, i: nat) {
    && (forall j :: 0 <= j < |g| && j != i ==> !Blank(g[j]))
    && (forall j :: 0 < j < |g| && j != i && j != i + 1 ==> !Disjoint(g[j - 1], g[j]))
  }

  lemma JoinSharing<T>(a: Column<T>, b: Column<T>, c: Column<T>)
    requires |a| == |b| == |c|
    ensures !Disjoint(c, a) ==> !Disjoint(c, Join(a, b))
    ensures !Disjoint(b, c) ==> !Disjoint(Join(a, b), c)
    ensures !Blank(a) || !Blank(b) ==> !Blank(Join(a, b))
  {
    if !Disjoint(c, a) {
      var t :| 0 <= t < |a| && c[t].Some? && a[t].Some?;
      Sharing(c, Join(a, b), t);
    }
    if !Disjoint(b, c) {
      var t :| 0 <= t < |b| && b[t].Some? && c[t].Some?;
      Sharing(Join(a, b), c, t);
    }
    if !Blank(a) || !Blank(b) {
      var t :| 0 <= t < |a| && (a[t].Some? || b[t].Some?);
      assert Join(a, b)[t].Some?;
    }
  }

  lemma JoinAtCells<T>(g: Grid<T>, i: nat)
    requires i + 1 < |g|
    ensures |JoinAt(g, i)| == |g| - 1 && JoinAt(g, i)[i] == Join(g[i], g[i + 1])
    ensures forall j :: 0 <= j < i ==> JoinAt(g, i)[j] == g[j]
    ensures forall j :: i < j < |g| - 1 ==> JoinAt(g, i)[j] == g[j + 1]
  {
  }

  /** Only the link from node i to the next one may be loose. */
  ghost predicate LeftDone<T>(g: Grid<T>, i: nat, n: nat) {
    && i < |g| && Wide(g, n) && TightBut(g, i) && !Blank(g[i])
    && (i > 0 ==> !Disjoint(g[i - 1], g[i]))
  }

  /** The merged node keeps whatever its two halves shared with their outer neighbours. */
  lemma JoinAtTight<T>(g: Grid<T>, i: nat, n: nat)
    requires i + 1 < |g| && Wide(g, n)
    requires TightBut(g, i) || TightBut(g, i + 1)
    requires !Blank(g[i]) && !Blank(g[i + 1])
    requires i > 0 ==> !Disjoint(g[i - 1], g[i])
    ensures LeftDone(JoinAt(g, i), i, n)
    ensures i + 2 < |g| && !Disjoint(g[i + 1], g[i + 2]) ==> !Disjoint(JoinAt(g, i)[i], JoinAt(g, i)[i + 1])
  {
    JoinAtCells(g, i);
    JoinSharing(g[i], g[i + 1], g[if i > 0 then i - 1 else i]);
    JoinSharing(g[i], g[i + 1], g[if i + 2 < |g| then i + 2 else i]);
  }

  /** The first loop merges at most once: the node further left shared a bit
      with the one merged in. */
  lemma MergeLeftOnce<T>(g: Grid<T>, i: nat, n: nat)
    requires i < |g| && Wide(g, n) && !Blank(g[i]) && TightBut(g, i)
    ensures LeftDone(MergeLeft(g, i).0, MergeLeft(g, i).1, n)
    ensures |MergeLeft(g, i).0| >= |g| - 1
  {
    if i > 0 && Disjoint(g[i - 1], g[i]) {
      JoinAtTight(g, i - 1, n);
      MergeLeftStays(JoinAt(g, i - 1), i - 1, n);
    }
  }

  lemma MergeLeftStays<T>(g: Grid<T>, i: nat, n: nat)
    requires LeftDone(g, i, n)
    ensures MergeLeft(g, i) == (g, i)
  {
  }

  lemma MergeRightOnce<T>(g: Grid<T>, i: nat, n: nat)
    requires LeftDone(g, i, n)
    ensures Tight(MergeRight(g, i)) && |MergeRight(g, i)| >= |g| - 1
  {
    if i + 1 < |g| && Disjoint(g[i], g[i + 1]) {
      JoinAtTight(g, i, n);
      MergeRightStays(JoinAt(g, i), i, n);
    } else {
      MergeRightStays(g, i, n);
    }
  }

  lemma MergeRightStays<T>(g: Grid<T>, i: nat, n: nat)
    requires LeftDone(g, i, n)
    requires i + 1 < |g| ==> !Disjoint(g[i], g[i + 1])
    ensures MergeRight(g, i) == g && Tight(g)
  {
  }

  /** After a bit was cleared in a tight list, mergeNodes makes it tight again
      and gives up at most two nodes on the way. */
  lemma MergeNodesTight<T>(g: Grid<T>, i: nat, n: nat)
    requires i < |g| && Wide(g, n) && TightBut(g, i)
    ensures Tight(MergeNodes(g, i)) && |MergeNodes(g, i)| >= |g| - 2
  {
    if !Blank(g[i]) {
      MergeLeftOnce(g, i, n);
      MergeRightOnce(MergeLeft(g, i).0, MergeLeft(g, i).1, n);
    } else if |g| > 1 {
      var h, j := Without(g, i), if i > 0 then i - 1 else 0;
      assert forall k :: 0 <= k < |h| ==> h[k] == g[if k < i then k else k + 1];
      assert MergeLeft(h, j) == (h, j);
      MergeRightOnce(h, j, n);
    }
  }

  /** Each loop merges at most once, and the left one has the first choice. */
  lemma MergeNodesExactly<T>(g: Grid<T>, i: nat, n: nat)
    requires i < |g| && Wide(g, n) && TightBut(g, i)
    ensures !Blank(g[i]) ==>
              var left := i > 0 && Disjoint(g[i - 1], g[i]);
              var c := if left then Join(g[i - 1], g[i]) else g[i];
              var right := i + 1 < |g| && Disjoint(c, g[i + 1]);
              MergeNodes(g, i) == g[..if left then i - 1 else i] + [if right then Join(c, g[i + 1]) else c]
                                  + g[if right then i + 2 else i + 1..]
    ensures Blank(g[i]) ==>
              MergeNodes(g, i) == if 0 < i && i + 1 < |g| && Disjoint(g[i - 1], g[i + 1])
                                  then g[..i - 1] + [Join(g[i - 1], g[i + 1])] + g[i + 2..]
                                  else g[..i] + g[i + 1..]
  {
    if Blank(g[i]) {
      BlankExactly(g, i, n);
    } else if i > 0 && Disjoint(g[i - 1], g[i]) {
      MergeLeftOnce(g, i, n);
      MergeLeftExactly(g, i, n);
      JoinAtParts(g, i - 1);
      AroundExactly(g, i, n, JoinAt(g, i - 1), i - 1);
    } else {
      MergeLeftOnce(g, i, n);
      AroundExactly(g, i, n, g, i);
    }
  }

  // h is what the first loop leaves, j where it ends.
  lemma AroundExactly<T>(g: Grid<T>, i: nat, n: nat, h: Grid<T>, j: nat)
    requires i < |g| && MergeLeft(g, i) == (h, j) && LeftDone(h, j, n)
    requires j <= i && h[..j] == g[..j] && h[j + 1..] == g[i + 1..]
    ensures MergeAround(g, i) ==
            if i + 1 < |g| && Disjoint(h[j], g[i + 1]) then g[..j] + [Join(h[j], g[i + 1])] + g[i + 2..]
            else g[..j] + [h[j]] + g[i + 1..]
  {
    MergeRightExactly(h, j, n);
    if i + 1 < |g| {
      assert h[j + 1] == h[j + 1..][0] == g[i + 1..][0];
      assert h[j + 2..] == h[j + 1..][1..] == g[i + 1..][1..] == g[i + 2..];
    }
  }

  lemma BlankExactly<T>(g: Grid<T>, i: nat, n: nat)
    requires i < |g| && Wide(g, n) && TightBut(g, i) && Blank(g[i])
    ensures MergeNodes(g, i) == if 0 < i && i + 1 < |g| && Disjoint(g[i - 1], g[i + 1])
                                then g[..i - 1] + [Join(g[i - 1], g[i + 1])] + g[i + 2..]
                                else g[..i] + g[i + 1..]
  {
    if |g| > 1 {
      var j := if i > 0 then i - 1 else 0;
      WithoutLeftDone(g, i, n);
      MergeLeftStays(Without(g, i), j, n);
      if i > 0 {
        MergeRightExactly(Without(g, i), i - 1, n);
        BlankParts(g, i);
      } else {
        MergeRightStays(Without(g, i), 0, n);
      }
    }
  }

  lemma WithoutLeftDone<T>(g: Grid<T>, i: nat, n: nat)
    requires i < |g| && Wide(g, n) && TightBut(g, i) && Blank(g[i]) && |g| > 1
    ensures LeftDone(Without(g, i), if i > 0 then i - 1 else 0, n) && (i == 0 ==> Tight(Without(g, i)))
  {
    var h := Without(g, i);
    assert forall k :: 0 <= k < |h| ==> h[k] == g[if k < i then k else k + 1];
  }

  lemma BlankParts<T>(g: Grid<T>, i: nat)
    requires 0 < i < |g|
    ensures Without(g, i)[..i - 1] == g[..i - 1] && Without(g, i)[i..] == g[i + 1..]
    ensures Without(g, i)[..i - 1] + [Without(g, i)[i - 1]] + Without(g, i)[i..] == g[..i] + g[i + 1..]
    ensures i + 1 < |g| ==> Without(g, i)[i + 1..] == g[i + 2..]
  {
  }

  lemma MergeLeftExactly<T>(g: Grid<T>, i: nat, n: nat)
    requires i < |g| && Wide(g, n) && !Blank(g[i]) && TightBut(g, i)
    ensures MergeLeft(g, i) == if i > 0 && Disjoint(g[i - 1], g[i]) then (JoinAt(g, i - 1), i - 1) else (g, i)
  {
    if i > 0 && Disjoint(g[i - 1], g[i]) {
      JoinAtTight(g, i - 1, n);
      MergeLeftStays(JoinAt(g, i - 1), i - 1, n);
    }
  }

  lemma MergeRightExactly<T>(g: Grid<T>, i: nat, n: nat)
    requires LeftDone(g, i, n)
    ensures MergeRight(g, i) ==
            if i + 1 < |g| && Disjoint(g[i], g[i + 1]) then g[..i] + [Join(g[i], g[i + 1])] + g[i + 2..]
            else g[..i] + [g[i]] + g[i + 1..]
  {
    if i + 1 < |g| && Disjoint(g[i], g[i + 1]) {
      JoinAtTight(g, i, n);
      MergeRightStays(JoinAt(g, i), i, n);
      JoinAtParts(g, i);
    } else {
      MergeRightStays(g, i, n);
      Parts(g, i);
    }
  }

  // ----- Delete

  /** The node of the k-th record of source s. */
  ghost function NodeOf<T>(g: Grid<T>, s: nat, k: nat): (i: nat)
    requires k < |Project(g, s)|
    ensures i < |g| && At(g[i], s) == Some(Project(g, s)[k]) && |Project(g[..i], s)| == k
  {
    var c := Cut(g, s, k + 1);
    assert c > 0;
    ProjectSplit(g, c - 1, s);
    c - 1
  }

  lemma NodeOfUnique<T>(g: Grid<T>, s: nat, k: nat, i: nat)
    requires i < |g| && At(g[i], s).Some? && |Project(g[..i], s)| == k
    ensures k < |Project(g, s)| && i == NodeOf(g, s, k)
  {
    ProjectSplit(g, i, s);
    CutUnique(g, s, k + 1, i + 1);
  }

  ghost function Cleared<T>(g: Grid<T>, s: nat, i: nat): Grid<T>
    requires i < |g| && s < |g[i]|
  {
    g[i := g[i][s := None]]
  }

  ghost function Delete<T>(g: Grid<T>, n: nat, s: nat, k: nat): Grid<T>
    requires Wide(g, n) && s < n && k < |Project(g, s)|
  {
    var i := NodeOf(g, s, k);
    MergeNodes(Cleared(g, s, i), i)
  }

  /** The record comes right behind its predecessor, in the first node when it has none;
      only where that node is in use by the source, or there is none, a new one is made. */
  lemma InsertPlace<T>(g: Grid<T>, n: nat, s: nat, k: nat, x: T)
    requires Wide(g, n) && s < n && k <= |Project(g, s)|
    ensures var p, h := if k == 0 then 0 else NodeOf(g, s, k - 1) + 1, Insert(g, n, s, k, x);
            && k < |Project(h, s)| && NodeOf(h, s, k) == p <= |g|
            && if p < |g| && g[p][s].None? then h == g[p := g[p][s := Some(x)]]
               else |h| == |g| + 1 && h[..p] == g[..p] && h[p + 1..] == g[p..]
  {
    var p, h := Cut(g, s, k), Insert(g, n, s, k, x);
    InsertSource(g, n, s, k, x);
    assert h[..p] == g[..p];
    NodeOfUnique(h, s, k, p);
  }

  lemma DeleteMeaning<T>(g: Grid<T>, n: nat, s: nat, k: nat)
    requires Wide(g, n) && s < n && k < |Project(g, s)|
    ensures Wide(Delete(g, n, s, k), n)
    ensures Project(Delete(g, n, s, k), s) == Project(g, s)[..k] + Project(g, s)[k + 1..]
    ensures forall t: nat :: t != s ==> Project(Delete(g, n, s, k), t) == Project(g, t)
  {
    DeleteSource(g, n, s, k);
    forall t: nat | t != s ensures Project(Delete(g, n, s, k), t) == Project(g, t) {
      DeleteOther(g, n, s, k, t);
    }
  }

  lemma DeleteSource<T>(g: Grid<T>, n: nat, s: nat, k: nat)
    requires Wide(g, n) && s < n && k < |Project(g, s)|
    ensures Wide(Delete(g, n, s, k), n)
    ensures Project(Delete(g, n, s, k), s) == Project(g, s)[..k] + Project(g, s)[k + 1..]
  {
    var i := NodeOf(g, s, k);
    MergeNodesMeaning(Cleared(g, s, i), i, n, s);
    ChangeMeaning(g, i, g[i][s := None], s);
    EmptyMiddle(Project(g, s)[..k], Project(g, s)[k + 1..]);
  }

  lemma DeleteOther<T>(g: Grid<T>, n: nat, s: nat, k: nat, t: nat)
    requires Wide(g, n) && s < n && k < |Project(g, s)| && t != s
    ensures Project(Delete(g, n, s, k), t) == Project(g, t)
  {
    var i := NodeOf(g, s, k);
    MergeNodesMeaning(Cleared(g, s, i), i, n, t);
    SameChange(g, i, g[i][s := None], t);
  }

  lemma DeleteTight<T>(g: Grid<T>, n: nat, s: nat, k: nat)
    requires Wide(g, n) && s < n && k < |Project(g, s)| && Tight(g)
    ensures Tight(Delete(g, n, s, k))
    ensures |g| - 2 <= |Delete(g, n, s, k)|
  {
    var i := NodeOf(g, s, k);
    MergeNodesTight(Cleared(g, s, i), i, n);
  }

  /** What is left where the record was: its column without it, joined to the left
      neighbour if the two share no source, then to the right one if these do not. */
  lemma DeletePlace<T>(g: Grid<T>, n: nat, s: nat, k: nat)
    requires Wide(g, n) && s < n && k < |Project(g, s)| && Tight(g)
    ensures var i := NodeOf(g, s, k);
            var rest := g[i][s := None];
            !Blank(rest) ==>
              var left := i > 0 && Disjoint(g[i - 1], rest);
              var c := if left then Join(g[i - 1], rest) else rest;
              var right := i + 1 < |g| && Disjoint(c, g[i + 1]);
              Delete(g, n, s, k) == g[..if left then i - 1 else i] + [if right then Join(c, g[i + 1]) else c]
                                    + g[if right then i + 2 else i + 1..]
    ensures var i := NodeOf(g, s, k);
            Blank(g[i][s := None]) ==>
              Delete(g, n, s, k) == if 0 < i && i + 1 < |g| && Disjoint(g[i - 1], g[i + 1])
                                    then g[..i - 1] + [Join(g[i - 1], g[i + 1])] + g[i + 2..]
                                    else g[..i] + g[i + 1..]
  {
    var i := NodeOf(g, s, k);
    var h := Cleared(g, s, i);
    MergeNodesExactly(h, i, n);
    assert forall j :: 0 <= j <= i ==> h[..j] == g[..j];
    assert forall j :: i < j <= |g| ==> h[j..] == g[j..];
  }

  // ----- deleting another record than the one that is stored

  /** Giving the k-th record of one source a new value changes nothing else. */
  lemma RenewMeaning<T>(g: Grid<T>, n: nat, s: nat, k: nat, r: T)
    requires Wide(g, n) && Tight(g) && s < n && k < |Project(g, s)|
    ensures var i := NodeOf(g, s, k);
            var h := g[i := g[i][s := Some(r)]];
            && Wide(h, n) && Tight(h)
            && Project(h, s) == Project(g, s)[k := r]
            && forall t: nat :: t != s ==> Project(h, t) == Project(g, t)
  {
    var i := NodeOf(g, s, k);
    var c := g[i][s := Some(r)];
    SetTight(g, i, s, r);
    ChangeMeaning(g, i, c, s);
    Parts(Project(g, s), k);
    forall t: nat | t != s ensures Project(g[i := c], t) == Project(g, t) {
      SameChange(g, i, c, t);
    }
  }

  /** The first source with a record in the column. */
  ghost function FirstHeld<T>(c: Column<T>): (t: nat)
    requires !Blank(c)
    ensures t < |c| && c[t].Some?
  {
    if c[0].Some? then 0 else 1 + FirstHeld(c[1..])
  }

  /** The first record of the column, if there is one, takes d up. */
  ghost function Absorb<T>(ops: XorOps<T>, c: Column<T>, d: T): (r: Column<T>)
    ensures |r| == |c|
  {
    if c == [] then []
    else if c[0].Some? then [Some(Xor(ops, c[0].value, d))] + c[1..]
    else [None] + Absorb(ops, c[1..], d)
  }

  lemma {:induction false} AbsorbAt<T>(ops: XorOps<T>, c: Column<T>, d: T)
    ensures Absorb(ops, c, d) ==
            if Blank(c) then c else c[FirstHeld(c) := Some(Xor(ops, c[FirstHeld(c)].value, d))]
  {
    if c != [] && c[0].None? {
      var rest := c[1..];
      AbsorbAt(ops, rest, d);
      assert c == [None] + rest;
      assert Blank(c) <==> Blank(rest);
    }
  }

  /** What is left of a column when x is taken out of its payload for the record of source s. */
  ghost function Taken<T>(ops: XorOps<T>, c: Column<T>, s: nat, x: T): (r: Column<T>)
    requires s < |c| && c[s].Some?
    ensures |r| == |c|
  {
    Absorb(ops, c[s := None], Xor(ops, c[s].value, x))
  }

  lemma TakenSmeared<T>(ops: XorOps<T>, c: Column<T>, s: nat, x: T)
    requires s < |c| && c[s].Some?
    ensures Taken(ops, c, s, x) == SmearedColumn(ops, c, s, x)[s := None]
    ensures Bits(Taken(ops, c, s, x)) == Bits(c)[s := false]
    ensures Blank(Taken(ops, c, s, x)) <==> Blank(c[s := None])
  {
    AbsorbAt(ops, c[s := None], Xor(ops, c[s].value, x));
    SmearedBits(ops, c, s, x);
  }

  lemma TakenPayload<T(!new)>(ops: XorOps<T>, c: Column<T>, s: nat, x: T)
    requires Lawful(ops) && s < |c| && c[s].Some?
    ensures !Blank(Taken(ops, c, s, x)) ==> Payload(ops, Taken(ops, c, s, x)) == Xor(ops, Payload(ops, c), x)
  {
    TakenSmeared(ops, c, s, x);
    if !Blank(c[s := None]) {
      SmearedPayload(ops, c, s, x);
    }
  }

  /** Taking x for the record of source s out of a node leaves the difference of
      the two in the node: as good as in a record of another source, if there is one. */
  ghost function SmearedColumn<T>(ops: XorOps<T>, c: Column<T>, s: nat, x: T): (r: Column<T>)
    requires s < |c| && c[s].Some?
    ensures |r| == |c|
  {
    if Blank(c[s := None]) then c
    else
      var t := FirstHeld(c[s := None]);
      c[t := Some(Xor(ops, c[t].value, Xor(ops, c[s].value, x)))]
  }

  lemma SmearedPayload<T(!new)>(ops: XorOps<T>, c: Column<T>, s: nat, x: T)
    requires Lawful(ops) && s < |c| && c[s].Some? && !Blank(c[s := None])
    ensures SmearedColumn(ops, c, s, x)[s].Some?
    ensures Payload(ops, SmearedColumn(ops, c, s, x)[s := None]) == Xor(ops, Payload(ops, c), x)
  {
    var rest := c[s := None];
    var t, v, p := FirstHeld(rest), c[s].value, Payload(ops, c);
    assert SmearedColumn(ops, c, s, x)[s := None] == rest[t := Some(Xor(ops, rest[t].value, Xor(ops, v, x)))];
    PayloadSet(ops, c, s, v);
    PayloadAdjust(ops, rest, t, Xor(ops, v, x));
    assert Regroup(Xor(ops, p, v), v, x);
    Cancel(ops, p, v);
  }

  ghost function Smeared<T>(ops: XorOps<T>, g: Grid<T>, n: nat, s: nat, k: nat, x: T): Grid<T>
    requires Wide(g, n) && s < n && k < |Project(g, s)|
  {
    var i := NodeOf(g, s, k);
    g[i := SmearedColumn(ops, g[i], s, x)]
  }

  lemma SmearedBits<T>(ops: XorOps<T>, c: Column<T>, s: nat, x: T)
    requires s < |c| && c[s].Some?
    ensures |SmearedColumn(ops, c, s, x)| == |c|
    ensures Bits(SmearedColumn(ops, c, s, x)[s := None]) == Bits(c)[s := false]
    ensures Blank(SmearedColumn(ops, c, s, x)[s := None]) <==> Blank(c[s := None])
  {
    var smeared := SmearedColumn(ops, c, s, x);
    assert forall t :: 0 <= t < |c| ==> smeared[t].Some? == c[t].Some?;
    var rest, left := c[s := None], smeared[s := None];
    assert forall t :: 0 <= t < |c| ==> left[t].Some? == rest[t].Some?;
  }

  lemma SmearedPlace<T>(ops: XorOps<T>, g: Grid<T>, n: nat, s: nat, k: nat, x: T)
    requires Wide(g, n) && s < n && k < |Project(g, s)|
    ensures var h, i := Smeared(ops, g, n, s, k, x), NodeOf(g, s, k);
            && Wide(h, n) && k < |Project(h, s)| && NodeOf(h, s, k) == i
            && Cleared(h, s, i) == g[i := SmearedColumn(ops, g[i], s, x)[s := None]]
  {
    var h, i := Smeared(ops, g, n, s, k, x), NodeOf(g, s, k);
    SmearedBits(ops, g[i], s, x);
    assert h[..i] == g[..i];
    NodeOfUnique(h, s, k, i);
  }

  /** What Delete leaves when the caller takes x for the record it deletes. */
  ghost function DeleteAs<T>(ops: XorOps<T>, g: Grid<T>, n: nat, s: nat, k: nat, x: T): Grid<T>
    requires Wide(g, n) && s < n && k < |Project(g, s)|
  {
    var i := NodeOf(g, s, k);
    MergeNodes(g[i := Taken(ops, g[i], s, x)], i)
  }

  lemma DeleteAsSmeared<T>(ops: XorOps<T>, g: Grid<T>, n: nat, s: nat, k: nat, x: T)
    requires Wide(g, n) && s < n && k < |Project(g, s)|
    ensures var h := Smeared(ops, g, n, s, k, x);
            && Wide(h, n) && k < |Project(h, s)|
            && DeleteAs(ops, g, n, s, k, x) == Delete(h, n, s, k)
  {
    TakenSmeared(ops, g[NodeOf(g, s, k)], s, x);
    SmearedPlace(ops, g, n, s, k, x);
  }

  /** Only one record of one other source changes, if any, and no node moves. */
  lemma SmearedMeaning<T>(ops: XorOps<T>, g: Grid<T>, n: nat, s: nat, k: nat, x: T)
    requires Wide(g, n) && Tight(g) && s < n && k < |Project(g, s)|
    ensures var h := Smeared(ops, g, n, s, k, x);
            && Wide(h, n) && Tight(h) && |h| == |g|
            && Project(h, s) == Project(g, s) && NodeOf(h, s, k) == NodeOf(g, s, k)
            && forall t: nat :: |Project(h, t)| == |Project(g, t)|
    ensures var h, i := Smeared(ops, g, n, s, k, x), NodeOf(g, s, k);
            var rest := g[i][s := None];
            forall t: nat :: Blank(rest) || t != FirstHeld(rest) ==> Project(h, t) == Project(g, t)
    ensures var h, i := Smeared(ops, g, n, s, k, x), NodeOf(g, s, k);
            var rest := g[i][s := None];
            !Blank(rest) ==>
              var t, d := FirstHeld(rest), Xor(ops, Project(g, s)[k], x);
              var j := |Project(g[..i], t)|;
              j < |Project(g, t)| && Project(h, t) == Project(g, t)[j := Xor(ops, Project(g, t)[j], d)]
  {
    var h, i := Smeared(ops, g, n, s, k, x), NodeOf(g, s, k);
    var rest := g[i][s := None];
    if Blank(rest) {
      assert h == g;
    } else {
      var t, d := FirstHeld(rest), Xor(ops, Project(g, s)[k], x);
      var j := |Project(g[..i], t)|;
      AlignedRecord(g, t, i);
      NodeOfUnique(g, t, j, i);
      RenewMeaning(g, n, t, j, Xor(ops, Project(g, t)[j], d));
      assert h[..i] == g[..i];
      NodeOfUnique(h, s, k, i);
    }
  }

  /** Whatever record the caller names, exactly the indexed one goes.  The error stays
      in one record of one source that shares the node, or nowhere if none does. */
  lemma DeleteAsMeaning<T>(ops: XorOps<T>, g: Grid<T>, n: nat, s: nat, k: nat, x: T)
    requires Wide(g, n) && Tight(g) && s < n && k < |Project(g, s)|
    ensures var h := DeleteAs(ops, g, n, s, k, x);
            && Wide(h, n) && Tight(h) && |g| - 2 <= |h|
            && Project(h, s) == Project(g, s)[..k] + Project(g, s)[k + 1..]
            && forall t: nat :: t != s ==> |Project(h, t)| == |Project(g, t)|
    ensures var h, i := DeleteAs(ops, g, n, s, k, x), NodeOf(g, s, k);
            var rest := g[i][s := None];
            && (forall t: nat :: t != s && (Blank(rest) || t != FirstHeld(rest)) ==> Project(h, t) == Project(g, t))
            && (!Blank(rest) ==>
                  var t, d := FirstHeld(rest), Xor(ops, Project(g, s)[k], x);
                  var j := |Project(g[..i], t)|;
                  j < |Project(g, t)| && Project(h, t) == Project(g, t)[j := Xor(ops, Project(g, t)[j], d)])
  {
    SmearedMeaning(ops, g, n, s, k, x);
    DeleteAsSmeared(ops, g, n, s, k, x);
    DeleteMeaning(Smeared(ops, g, n, s, k, x), n, s, k);
    DeleteTight(Smeared(ops, g, n, s, k, x), n, s, k);
  }

  /** The right record leaves nothing behind. */
  lemma DeleteAsStored<T(!new)>(ops: XorOps<T>, g: Grid<T>, n: nat, s: nat, k: nat)
    requires Lawful(ops) && Wide(g, n) && s < n && k < |Project(g, s)|
    ensures DeleteAs(ops, g, n, s, k, Project(g, s)[k]) == Delete(g, n, s, k)
  {
    var i := NodeOf(g, s, k);
    var c, x := g[i], Project(g, s)[k];
    AbsorbAt(ops, c[s := None], Xor(ops, x, x));
    if !Blank(c[s := None]) {
      var t := FirstHeld(c[s := None]);
      assert Xor(ops, c[t].value, Xor(ops, x, x)) == c[t].value;
    }
    assert Taken(ops, c, s, x) == c[s := None];
  }
}
