/** How many nodes a tight grid needs: no more than its records, less one for
    every source after the first, and no fewer than its longest source. */
module Space {
  import opened Grids

  function Carried<T>(c: Column<T>, k: nat): set<nat>
    requires k <= |c|
  {
    set s: nat | s < k && c[s].Some?
  }

  /** The records of the first k sources together. */
  function Records<T>(g: Grid<T>, k: nat): nat {
    if k == 0 then 0 else Records(g, k - 1) + |Project(g, k - 1)|
  }

  /** The sources among the first k that have records. */
  function Occupied<T>(g: Grid<T>, k: nat): set<nat> {
    set s: nat | s < k && |Project(g, s)| > 0
  }

  lemma SizeStep<T>(g: Grid<T>, c: Column<T>, s: nat)
    ensures |Project(g + [c], s)| == |Project(g, s)| + if At(c, s).Some? then 1 else 0
  {
    assert (g + [c])[..|g|] == g;
  }

  lemma CarriedStep<T>(c: Column<T>, k: nat)
    requires k < |c|
    ensures |Carried(c, k + 1)| == |Carried(c, k)| + if c[k].Some? then 1 else 0
  {
    assert Carried(c, k + 1) == Carried(c, k) + if c[k].Some? then {k} else {};
  }

  lemma {:induction false} RecordsStep<T>(g: Grid<T>, c: Column<T>, k: nat)
    requires k <= |c|
    ensures Records(g + [c], k) == Records(g, k) + |Carried(c, k)|
  {
    if k == 0 {
      assert Carried(c, 0) == {};
    } else {
      RecordsStep(g, c, k - 1);
      SizeStep(g, c, k - 1);
      CarriedStep(c, k - 1);
    }
  }

  lemma {:induction false} RecordsOfNothing<T>(k: nat)
    ensures Records<T>([], k) == 0
  {
    if k > 0 {
      RecordsOfNothing<T>(k - 1);
    }
  }

  lemma OccupiedStep<T>(g: Grid<T>, c: Column<T>, n: nat)
    requires |c| == n
    ensures Occupied(g + [c], n) == Occupied(g, n) + Carried(c, n)
  {
    forall s: nat | s < n
      ensures |Project(g + [c], s)| == |Project(g, s)| + if c[s].Some? then 1 else 0
    {
      SizeStep(g, c, s);
    }
  }

  lemma UnionSize(a: set<nat>, b: set<nat>)
    ensures |a + b| + |a * b| == |a| + |b|
  {
    assert a + b == a + (b - a);
    assert b == (a * b) + (b - a);
  }

  /** Neighbouring nodes share a source, so every node after the first adds at
      least one record more than it adds new sources. */
  lemma {:induction false} NodesBounded<T>(g: Grid<T>, n: nat)
    requires Wide(g, n) && Tight(g) && g != []
    ensures |g| + |Occupied(g, n)| <= Records(g, n) + 1
  {
    var last := |g| - 1;
    var h, c := g[..last], g[last];
    assert g == h + [c];
    RecordsStep(h, c, n);
    OccupiedStep(h, c, n);
    if h == [] {
      RecordsOfNothing<T>(n);
      assert Occupied(h, n) == {};
      assert Occupied(g, n) == Carried(c, n);
    } else {
      NodesBounded(h, n);
      SharedSource(h, c, n);
      UnionSize(Occupied(h, n), Carried(c, n));
    }
  }

  lemma SharedSource<T>(h: Grid<T>, c: Column<T>, n: nat)
    requires h != [] && |h[|h| - 1]| == |c| == n && !Disjoint(h[|h| - 1], c)
    ensures |Occupied(h, n) * Carried(c, n)| >= 1
  {
    var last := |h| - 1;
    var t :| 0 <= t < n && h[last][t].Some? && c[t].Some?;
    AlignedRecord(h, t, last);
    assert t in Occupied(h, n) * Carried(c, n);
  }

  /** max source size <= nodes <= records - sources in use + 1 */
  lemma SpaceBound<T>(g: Grid<T>, n: nat)
    requires Wide(g, n) && Tight(g)
    ensures forall s :: 0 <= s < n ==> |Project(g, s)| <= |g|
    ensures g != [] ==> |Occupied(g, n)| > 0 && |g| <= Records(g, n) - |Occupied(g, n)| + 1
    ensures g == [] <==> Records(g, n) == 0
  {
    forall s | 0 <= s < n ensures |Project(g, s)| <= |g| {
      SourceFits(g, s);
    }
    if g == [] {
      RecordsOfNothing<T>(n);
    } else {
      NodesBounded(g, n);
      var t :| 0 <= t < n && g[0][t].Some?;
      AlignedRecord(g, t, 0);
      assert t in Occupied(g, n);
    }
  }

  // ----- all buckets of a table together

  function Nodes<T>(l: seq<Grid<T>>): nat {
    if l == [] then 0 else Nodes(l[..|l| - 1]) + |l[|l| - 1]|
  }

  /** One bit for each source, in as few bytes as hold them. */
  function BitFieldBytes(n: nat): (w: nat)
    ensures n <= 8 * w < n + 8
  {
    (n + 7) / 8
  }

  /** A key, a value and a bit field. */
  function NodeBytes(n: nat): nat {
    16 + BitFieldBytes(n)
  }

  function Bytes<T>(l: seq<Grid<T>>, n: nat): nat {
    Nodes(l) * NodeBytes(n)
  }

  /** The records of source s in all buckets. */
  function SourceRecords<T>(l: seq<Grid<T>>, s: nat): nat {
    if l == [] then 0 else SourceRecords(l[..|l| - 1], s) + |Project(l[|l| - 1], s)|
  }

  /** The records of the first k sources in all buckets. */
  function AllRecords<T>(l: seq<Grid<T>>, k: nat): nat {
    if k == 0 then 0 else AllRecords(l, k - 1) + SourceRecords(l, k - 1)
  }

  /** The sources in use after the first one. */
  function Excess(used: set<nat>): nat {
    if used == {} then 0 else |used| - 1
  }

  /** What fusion saves for certain: in each bucket in use, one node for every source after the first. */
  function Shared<T>(l: seq<Grid<T>>, n: nat): nat {
    if l == [] then 0 else Shared(l[..|l| - 1], n) + Excess(Occupied(l[|l| - 1], n))
  }

  lemma SourceRecordsStep<T>(l: seq<Grid<T>>, g: Grid<T>, s: nat)
    ensures SourceRecords(l + [g], s) == SourceRecords(l, s) + |Project(g, s)|
  {
    assert (l + [g])[..|l|] == l;
  }

  lemma {:induction false} AllRecordsStep<T>(l: seq<Grid<T>>, g: Grid<T>, k: nat)
    ensures AllRecords(l + [g], k) == AllRecords(l, k) + Records(g, k)
  {
    if k > 0 {
      AllRecordsStep(l, g, k - 1);
      SourceRecordsStep(l, g, k - 1);
    }
  }

  lemma {:induction false} AllRecordsOfNothing<T>(k: nat)
    ensures AllRecords<T>([], k) == 0
  {
    if k > 0 {
      AllRecordsOfNothing<T>(k - 1);
    }
  }

  /** NodeCount is bounded by the records less what the buckets share. */
  lemma {:induction false} LayoutBound<T>(l: seq<Grid<T>>, n: nat)
    requires forall b :: 0 <= b < |l| ==> Wide(l[b], n) && Tight(l[b])
    ensures Nodes(l) + Shared(l, n) <= AllRecords(l, n)
  {
    if l == [] {
      AllRecordsOfNothing<T>(n);
    } else {
      var h, g := l[..|l| - 1], l[|l| - 1];
      LayoutBound(h, n);
      assert l == h + [g];
      AllRecordsStep(h, g, n);
      SpaceBound(g, n);
      if g == [] {
        assert Occupied(g, n) == {};
      }
    }
  }

  /** No source has more records than the table has nodes. */
  lemma {:induction false} LongestSourceFits<T>(l: seq<Grid<T>>, s: nat)
    ensures SourceRecords(l, s) <= Nodes(l)
  {
    if l != [] {
      LongestSourceFits(l[..|l| - 1], s);
      SourceFits(l[|l| - 1], s);
    }
  }
}
