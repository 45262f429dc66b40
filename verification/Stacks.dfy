/** structures/stack.go and structures/liststack.go: one fusion for several
    stacks, aligned at the bottom, once in an array and once in a linked list. */
module Stacks {
  import opened Words
  import opened Grids
  import opened Results
  import opened Sets

  /** The elements at depth d. */
  function Slot<T>(sources: seq<seq<T>>, d: nat): Column<T> {
    seq(|sources|, s requires 0 <= s < |sources| => if d < |sources[s]| then Some(sources[s][d]) else None)
  }

  /** The exclusive-or of depth d. */
  function Level<T>(ops: XorOps<T>, sources: seq<seq<T>>, d: nat): T {
    Payload(ops, Slot(sources, d))
  }

  function Deepest<T>(sources: seq<seq<T>>): nat {
    if sources == [] then 0
    else
      var rest, own := Deepest(sources[..|sources| - 1]), |sources[|sources| - 1]|;
      if own > rest then own else rest
  }

  /** What either stack keeps: as long as the deepest source, with the exclusive-or of every depth. */
  function Fused<T>(ops: XorOps<T>, sources: seq<seq<T>>): seq<T> {
    seq(Deepest(sources), d requires d >= 0 => Level(ops, sources, d))
  }

  function Pushed<T>(sources: seq<seq<T>>, s: nat, x: T): seq<seq<T>>
    requires s < |sources|
  {
    sources[s := sources[s] + [x]]
  }

  function Popped<T>(sources: seq<seq<T>>, s: nat): seq<seq<T>>
    requires s < |sources| && sources[s] != []
  {
    sources[s := sources[s][..|sources[s]| - 1]]
  }

  lemma {:induction false} DeepestIs<T>(sources: seq<seq<T>>, n: nat)
    requires forall s :: 0 <= s < |sources| ==> |sources[s]| <= n
    ensures Deepest(sources) <= n
    ensures Deepest(sources) == n <==> n == 0 || exists s :: 0 <= s < |sources| && |sources[s]| == n
  {
    if sources != [] {
      var last := |sources| - 1;
      DeepestIs(sources[..last], n);
      if n > 0 && Deepest(sources[..last]) == n {
        var s :| 0 <= s < last && |sources[..last][s]| == n;
        assert |sources[s]| == n;
      }
      forall s | 0 <= s < last && |sources[s]| == n ensures |sources[..last][s]| == n {
      }
    }
  }

  lemma {:induction false} NoneDeeper<T>(sources: seq<seq<T>>)
    ensures forall s :: 0 <= s < |sources| ==> |sources[s]| <= Deepest(sources)
  {
    if sources != [] {
      var last := |sources| - 1;
      NoneDeeper(sources[..last]);
      forall s | 0 <= s < last ensures |sources[s]| <= Deepest(sources) {
        assert sources[..last][s] == sources[s];
      }
    }
  }

  lemma NothingYet<T>(n: nat)
    ensures Deepest<T>(seq(n, _ => [])) == 0
  {
    DeepestIs<T>(seq(n, _ => []), 0);
  }

  lemma PushMeaning<T>(sources: seq<seq<T>>, s: nat, x: T)
    requires s < |sources|
    ensures var d := |sources[s]|;
            && Slot(sources, d)[s].None?
            && forall e: nat ::
                 Slot(Pushed(sources, s, x), e) == if e == d then Slot(sources, d)[s := Some(x)] else Slot(sources, e)
  {
  }

  /** A push needs a new depth exactly when the source was among the deepest. */
  lemma PushDepth<T>(sources: seq<seq<T>>, s: nat, x: T)
    requires s < |sources|
    ensures forall t :: 0 <= t < |sources| ==> |sources[t]| <= Deepest(sources)
    ensures Deepest(Pushed(sources, s, x)) ==
              if |sources[s]| == Deepest(sources) then |sources[s]| + 1 else Deepest(sources)
  {
    var now, d := Pushed(sources, s, x), |sources[s]|;
    NoneDeeper(sources);
    DeepestIs(sources, Deepest(sources));
    if d == Deepest(sources) {
      assert |now[s]| == d + 1;
      DeepestIs(now, d + 1);
    } else {
      forall t | 0 <= t < |sources| && |sources[t]| == Deepest(sources) ensures |now[t]| == Deepest(sources) {
      }
      DeepestIs(now, Deepest(sources));
    }
  }

  lemma PopMeaning<T>(sources: seq<seq<T>>, s: nat)
    requires s < |sources| && sources[s] != []
    ensures var now, d := Popped(sources, s), |sources[s]| - 1;
            && Slot(sources, d)[s] == Some(sources[s][d])
            && forall e: nat :: Slot(now, e) == if e == d then Slot(sources, d)[s := None] else Slot(sources, e)
  {
  }

  /** The last depth goes exactly when the popped source was the only one to reach it. */
  lemma PopDepth<T>(sources: seq<seq<T>>, s: nat)
    requires s < |sources| && sources[s] != []
    ensures forall t :: 0 <= t < |sources| ==> |sources[t]| <= Deepest(sources)
    ensures var now, n := Popped(sources, s), Deepest(sources);
            Deepest(now) == if |sources[s]| == n && (forall t :: 0 <= t < |now| ==> |now[t]| != n) then n - 1 else n
  {
    var now, n := Popped(sources, s), Deepest(sources);
    NoneDeeper(sources);
    DeepestIs(sources, n);
    if |sources[s]| == n && (forall t :: 0 <= t < |now| ==> |now[t]| != n) {
      assert |now[s]| == n - 1;
      DeepestIs(now, n - 1);
    } else {
      if |sources[s]| != n {
        var t :| 0 <= t < |sources| && |sources[t]| == n;
        assert |now[t]| == n;
      }
      DeepestIs(now, n);
    }
  }

  lemma BeyondIsZero<T(!new)>(ops: XorOps<T>, sources: seq<seq<T>>, d: nat)
    requires Lawful(ops) && d >= Deepest(sources)
    ensures Level(ops, sources, d) == ops.zero
  {
    NoneDeeper(sources);
    PayloadBlank(ops, Slot(sources, d));
  }

  lemma PopLevels<T(!new)>(ops: XorOps<T>, sources: seq<seq<T>>, s: nat)
    requires Lawful(ops) && s < |sources| && sources[s] != []
    ensures forall e: nat :: Level(ops, Popped(sources, s), e) ==
              if e == |sources[s]| - 1 then Xor(ops, Level(ops, sources, e), sources[s][e]) else Level(ops, sources, e)
  {
    PopMeaning(sources, s);
    PayloadSet(ops, Slot(sources, |sources[s]| - 1), s, sources[s][|sources[s]| - 1]);
  }

  lemma PushLevels<T(!new)>(ops: XorOps<T>, sources: seq<seq<T>>, s: nat, x: T)
    requires Lawful(ops) && s < |sources|
    ensures forall e: nat :: Level(ops, Pushed(sources, s, x), e) ==
              if e == |sources[s]| then Xor(ops, Level(ops, sources, e), x) else Level(ops, sources, e)
  {
    PushMeaning(sources, s, x);
    PayloadSet(ops, Slot(sources, |sources[s]|), s, x);
  }

  // ----- Recover

  /** As far as depth n, the list is the source. */
  ghost predicate AgreesTo<T>(list: seq<T>, source: seq<T>, n: nat) {
    forall d :: 0 <= d < n ==> (d < |list| <==> d < |source|) && (d < |list| ==> list[d] == source[d])
  }

  // out is the fusion without the elements of the sources in done.
  ghost predicate Peeled<T>(ops: XorOps<T>, sources: seq<seq<T>>, out: seq<T>, done: set<int>) {
    forall d :: 0 <= d < |out| ==> out[d] == Payload(ops, Mask(Slot(sources, d), done))
  }

  lemma PeeledStart<T>(ops: XorOps<T>, sources: seq<seq<T>>, n: nat)
    requires n <= Deepest(sources)
    ensures Peeled(ops, sources, Fused(ops, sources)[..n], {})
  {
    forall d | 0 <= d < n ensures Mask(Slot(sources, d), {}) == Slot(sources, d) {
    }
  }

  /** The inner loop of both Recovers. */
  method Subtract<T(!new)>(ops: XorOps<T>, before: seq<T>, list: seq<T>, ghost sources: seq<seq<T>>, ghost s: nat,
                           ghost done: set<int>)
    returns (out: seq<T>)
    requires Lawful(ops) && s < |sources| && s !in done
    ensures |out| == |before|
    ensures Peeled(ops, sources, before, done) && AgreesTo(list, sources[s], |before|) ==>
              Peeled(ops, sources, out, done + {s})
  {
    out := before;
    var i := 0;
    while i < |list| && i < |out|
      invariant i <= |list| && i <= |out| == |before|
      invariant forall d :: 0 <= d < |out| ==>
                  out[d] == if d < i then Xor(ops, before[d], list[d]) else before[d]
    {
      out := out[i := Xor(ops, out[i], list[i])];
      i := i + 1;
    }
    if Peeled(ops, sources, before, done) && AgreesTo(list, sources[s], |before|) {
      forall d | 0 <= d < |out| ensures out[d] == Payload(ops, Mask(Slot(sources, d), done + {s})) {
        PayloadMask(ops, Slot(sources, d), done, s);
      }
    }
  }

  // Takes out the survivors in whatever order the map gives them; they agree with their sources if exact says so.
  method SubtractAll<T(!new)>(ops: XorOps<T>, sourceCount: nat, missing: nat, start: seq<T>,
                              survivors: map<int, seq<T>>,
                              ghost sources: seq<seq<T>>, ghost exact: bool)
    returns (out: seq<T>, ok: bool)
    requires Lawful(ops) && sourceCount == |sources| && Peeled(ops, sources, start, {})
    requires exact ==> forall s :: s in survivors ==>
               0 <= s < |sources| && AgreesTo(survivors[s], sources[s], |start|)
    ensures ok <==> forall s :: s in survivors ==> 0 <= s < |sources| && s != missing
    ensures |out| == |start| && (ok && exact ==> Peeled(ops, sources, out, survivors.Keys))
  {
    out := start;
    var todo := survivors.Keys;
    ghost var done: set<int> := {};
    while todo != {}
      invariant todo <= survivors.Keys && done == survivors.Keys - todo
      invariant |out| == |start| && (exact ==> Peeled(ops, sources, out, done))
      invariant forall s :: s in done ==> 0 <= s < |sources| && s != missing
    {
      var source := AnyOf(todo);
      if source < 0 || source >= sourceCount || source == missing {
        return out, false;
      }
      out := Subtract(ops, out, survivors[source], sources, source, done);
      OneLess(survivors.Keys, todo, source);
      todo, done := todo - {source}, done + {source};
    }
    assert done == survivors.Keys;
    ok := true;
  }

  /** Both stacks recover alike: lengths are not compared, elements deeper than the missing source are ignored. */
  method RecoverFrom<T(!new)>(ops: XorOps<T>, sourceCount: nat, missing: nat, start: seq<T>,
                              survivors: map<int, seq<T>>,
                              ghost sources: seq<seq<T>>)
    returns (r: Result<seq<T>>)
    requires Lawful(ops) && sourceCount == |sources| && missing < |sources| && |survivors| == |sources| - 1
    requires |start| == |sources[missing]| && Peeled(ops, sources, start, {})
    ensures r.Ok? <==> forall s :: s in survivors ==> 0 <= s < |sources| && s != missing
    ensures r.Ok? && (forall s :: s in survivors ==> AgreesTo(survivors[s], sources[s], |sources[missing]|))
            ==> r.value == sources[missing]
  {
    ghost var exact := forall s :: s in survivors ==>
      0 <= s < |sources| && AgreesTo(survivors[s], sources[s], |sources[missing]|);
    var out, ok := SubtractAll(ops, sourceCount, missing, start, survivors, sources, exact);
    if !ok {
      return Err(InvalidSurvivor);
    }
    assert |survivors.Keys| == |survivors|;
    OthersComplete(|sources|, missing, survivors.Keys);
    if exact {
      OnlyMissing(ops, sources, missing, out, survivors.Keys);
    }
    r := Ok(out);
  }

  lemma OnlyMissing<T(!new)>(ops: XorOps<T>, sources: seq<seq<T>>, missing: nat, out: seq<T>, done: set<int>)
    requires Lawful(ops) && missing < |sources| && |out| == |sources[missing]| && Peeled(ops, sources, out, done)
    requires missing !in done && forall s :: 0 <= s < |sources| && s != missing ==> s in done
    ensures out == sources[missing]
  {
    forall d | 0 <= d < |out| ensures out[d] == sources[missing][d] {
      PayloadOnly(ops, Mask(Slot(sources, d), done), missing);
    }
  }

  // ----- the array stack

  class FusedStack<T(==,!new)> {
    const ops: XorOps<T>
    var sources: seq<seq<T>>
    var fusion: seq<T>
    var tops: seq<int>

    ghost predicate Valid()
      reads this
    {
      && Lawful(ops) && fusion == Fused(ops, sources)
      && |tops| == |sources| && forall s :: 0 <= s < |tops| ==> tops[s] == |sources[s]|
    }

    constructor (ops: XorOps<T>, sourceCount: nat)
      requires Lawful(ops)
      ensures Valid() && sources == seq(sourceCount, _ => []) && this.ops == ops
    {
      this.ops := ops;
      this.sources := seq(sourceCount, _ => []);
      this.fusion := [];
      this.tops := seq(sourceCount, _ => 0);
      NothingYet<T>(sourceCount);
    }

    predicate ValidSource(source: int)
      reads `sources
    {
      0 <= source < |sources|
    }

    method Push(source: int, value: T) returns (r: Result<()>)
      requires Valid()
      modifies this
      ensures Valid()
      ensures r.Ok? <==> old(ValidSource(source))
      ensures r.Ok? ==> sources == Pushed(old(sources), source, value)
      ensures r.Err? ==> sources == old(sources)
    {
      if !ValidSource(source) {
        return Err(SourceOutOfRange);
      }
      PushDepth(sources, source, value);
      PushLevels(ops, sources, source, value);
      var depth := tops[source];
      if depth == |fusion| {
        BeyondIsZero(ops, sources, depth);
        fusion := fusion + [ops.zero];
      }
      fusion := fusion[depth := Xor(ops, fusion[depth], value)];
      sources := Pushed(sources, source, value);
      tops := tops[source := tops[source] + 1];
      r := Ok(());
    }

    method MaxTop() returns (max: int)
      requires |tops| == |sources| && forall s :: 0 <= s < |tops| ==> tops[s] == |sources[s]|
      ensures max == Deepest(sources)
    {
      max := 0;
      for i := 0 to |tops|
        invariant max == Deepest(sources[..i])
      {
        assert sources[..i + 1][..i] == sources[..i];
        if tops[i] > max {
          max := tops[i];
        }
      }
      assert sources[..|sources|] == sources;
    }

    /** The loop stops at the deepest source and nowhere else: a slot above it is always zero. */
    method Pop(source: int) returns (r: Result<T>)
      requires Valid()
      modifies this
      ensures Valid()
      ensures r.Ok? <==> old(ValidSource(source) && sources[source] != [])
      ensures r.Ok? ==> r.value == old(sources)[source][|old(sources)[source]| - 1]
      ensures r.Ok? ==> sources == Popped(old(sources), source)
      ensures r.Err? ==> sources == old(sources)
    {
      if !ValidSource(source) {
        return Err(SourceOutOfRange);
      }
      if tops[source] == 0 {
        return Err(SourceEmpty);
      }
      NoneDeeper(sources);
      PopLevels(ops, sources, source);
      PopDepth(sources, source);
      tops := tops[source := tops[source] - 1];
      var value := sources[source][tops[source]];
      sources := Popped(sources, source);
      fusion := fusion[tops[source] := Xor(ops, fusion[tops[source]], value)];
      Trim();
      r := Ok(value);
    }

    method Trim()
      requires Lawful(ops)
      requires |tops| == |sources| && forall s :: 0 <= s < |tops| ==> tops[s] == |sources[s]|
      requires |fusion| >= Deepest(sources)
      requires forall d :: 0 <= d < |fusion| ==> fusion[d] == Level(ops, sources, d)
      modifies `fusion
      ensures fusion == Fused(ops, sources)
    {
      while true
        invariant |fusion| >= Deepest(sources)
        invariant forall d :: 0 <= d < |fusion| ==> fusion[d] == Level(ops, sources, d)
        decreases |fusion|
      {
        if |fusion| == 0 || fusion[|fusion| - 1] != ops.zero {
          break;
        }
        var max := MaxTop();
        if max >= |fusion| {
          break;
        }
        fusion := fusion[..|fusion| - 1];
      }
      if |fusion| > Deepest(sources) {
        BeyondIsZero(ops, sources, |fusion| - 1);
        assert false;
      }
    }

    method Recover(missing: int, survivors: map<int, seq<T>>) returns (r: Result<seq<T>>)
      requires Valid()
      ensures r.Ok? <==>
                && ValidSource(missing) && |survivors| == |sources| - 1
                && forall s :: s in survivors ==> ValidSource(s) && s != missing
      ensures r.Ok? && (forall s :: s in survivors ==> AgreesTo(survivors[s], sources[s], |sources[missing]|))
              ==> r.value == sources[missing]
    {
      if !ValidSource(missing) {
        return Err(SourceOutOfRange);
      }
      if |survivors| != |sources| - 1 {
        return Err(WrongSurvivorCount);
      }
      NoneDeeper(sources);
      PeeledStart(ops, sources, |sources[missing]|);
      r := RecoverFrom(ops, |sources|, missing, fusion[..tops[missing]], survivors, sources);
    }
  }

  // ----- the list stack

  class StackNode<T(!new)> {
    var value: T
    var previous: StackNode?<T>
    var next: StackNode?<T>

    constructor (zero: T, previous: StackNode?<T>)
      ensures value == zero && this.previous == previous && next == null
    {
      this.value, this.previous, this.next := zero, previous, null;
    }
  }

  ghost function TopOf<T(!new)>(nodes: seq<StackNode<T>>, n: nat): StackNode?<T> {
    if 0 < n <= |nodes| then nodes[n - 1] else null
  }

  /** Every source's tail is the node of its top. */
  ghost predicate TailsAre<T(!new)>(nodes: seq<StackNode<T>>, sources: seq<seq<T>>, tails: seq<StackNode?<T>>) {
    && |tails| == |sources|
    && forall s :: 0 <= s < |sources| ==> |sources[s]| <= |nodes| && tails[s] == TopOf(nodes, |sources[s]|)
  }

  lemma TailsPlaced<T(!new)>(nodes: seq<StackNode<T>>, sources: seq<seq<T>>, tails: seq<StackNode?<T>>, s: nat,
                             list: seq<T>)
    requires TailsAre(nodes, sources, tails) && s < |sources| && |list| <= |nodes|
    ensures TailsAre(nodes, sources[s := list], tails[s := TopOf(nodes, |list|)])
  {
  }

  lemma TailsMoreNodes<T(!new)>(nodes: seq<StackNode<T>>, more: seq<StackNode<T>>, sources: seq<seq<T>>,
                                tails: seq<StackNode?<T>>)
    requires forall s :: 0 <= s < |sources| ==> |sources[s]| <= |nodes|
    ensures TailsAre(nodes, sources, tails) <==> TailsAre(nodes + more, sources, tails)
  {
    assert forall s :: 0 <= s < |sources| ==> TopOf(nodes, |sources[s]|) == TopOf(nodes + more, |sources[s]|);
  }

  class FusedListStack<T(!new)> {
    const ops: XorOps<T>
    var sources: seq<seq<T>>
    var head: StackNode?<T>
    var tails: seq<StackNode?<T>>
    ghost var nodes: seq<StackNode<T>>

    ghost function Ref(i: int): StackNode?<T>
      reads `nodes
    {
      if 0 <= i < |nodes| then nodes[i] else null
    }

    ghost predicate Linked()
      reads `head, `nodes, nodes`previous, nodes`next
    {
      && (forall i, j :: 0 <= i < j < |nodes| ==> nodes[i] != nodes[j])
      && (forall i {:trigger nodes[i].previous} :: 0 <= i < |nodes| ==> nodes[i].previous == Ref(i - 1))
      && (forall i {:trigger nodes[i].next} :: 0 <= i < |nodes| ==> nodes[i].next == Ref(i + 1))
      && head == Ref(0)
    }

    ghost predicate Tails()
      reads `nodes, `sources, `tails
    {
      TailsAre(nodes, sources, tails)
    }

    /** The values of the nodes are those of the first |nodes| depths. */
    ghost predicate Carries()
      reads `nodes, `sources, nodes`value
    {
      forall i {:trigger nodes[i].value} :: 0 <= i < |nodes| ==> nodes[i].value == Level(ops, sources, i)
    }

    ghost predicate Valid()
      reads this, nodes
    {
      Lawful(ops) && Linked() && Tails() && Carries() && |nodes| == Deepest(sources)
    }

    constructor (ops: XorOps<T>, sourceCount: nat)
      requires Lawful(ops)
      ensures Valid() && nodes == [] && sources == seq(sourceCount, _ => []) && this.ops == ops
    {
      this.ops := ops;
      this.sources := seq(sourceCount, _ => []);
      this.head := null;
      this.tails := seq(sourceCount, _ => null);
      this.nodes := [];
      NothingYet<T>(sourceCount);
    }

    predicate ValidSource(source: int)
      reads `sources
    {
      0 <= source < |sources|
    }

    method Last() returns (node: StackNode?<T>)
      requires Linked()
      ensures node == Ref(|nodes| - 1)
    {
      node := head;
      if node == null {
        return;
      }
      ghost var i := 0;
      while node.next != null
        invariant 0 <= i < |nodes| && node == nodes[i]
        decreases |nodes| - i
      {
        node, i := node.next, i + 1;
      }
    }

    // A new last node, for the deepest source to go on.
    method AppendNode(ghost d: nat) returns (node: StackNode<T>)
      requires Lawful(ops) && Linked() && Tails() && Carries() && d == |nodes| == Deepest(sources)
      modifies `head, `nodes, nodes`next
      ensures Linked() && Tails() && Carries() && fresh(node) && nodes == old(nodes) + [node]
    {
      BeyondIsZero(ops, sources, d);
      NoneDeeper(sources);
      ghost var was := nodes;
      node := LinkNode();
      TailsMoreNodes(was, [node], sources, tails);
      forall i | 0 <= i < |nodes| ensures nodes[i].value == Level(ops, sources, i) {
        if i < d {
          assert nodes[i] == was[i];
        }
      }
    }

    // The pointer writes of AppendNode.
    method LinkNode() returns (node: StackNode<T>)
      requires Linked()
      modifies `head, `nodes, nodes`next
      ensures Linked() && fresh(node) && node.value == ops.zero && nodes == old(nodes) + [node]
    {
      var end := Last();
      node := new StackNode(ops.zero, end);
      if end == null {
        head := node;
      } else {
        end.next := node;
      }
      nodes := nodes + [node];
    }

    method Push(source: int, value: T) returns (r: Result<()>)
      requires Valid()
      modifies this, nodes
      ensures Valid() && forall n :: n in nodes ==> n in old(nodes) || fresh(n)
      ensures r.Ok? <==> old(ValidSource(source))
      ensures r.Ok? ==> sources == Pushed(old(sources), source, value)
      ensures r.Err? ==> sources == old(sources)
    {
      if !ValidSource(source) {
        return Err(SourceOutOfRange);
      }
      PushDepth(sources, source, value);
      var node := if tails[source] == null then head else tails[source].next;
      if node == null {
        node := AppendNode(|sources[source]|);
      }
      Place(|sources[source]|, node, source, value);
      r := Ok(());
    }

    // The value goes to the node of its depth, which may be new.
    method Place(ghost d: nat, node: StackNode<T>, source: nat, value: T)
      requires Lawful(ops) && Linked() && Tails() && Carries()
      requires source < |sources| && d == |sources[source]| < |nodes| == Deepest(Pushed(sources, source, value))
      requires node == nodes[d]
      modifies node`value, `tails, `sources
      ensures Valid() && sources == Pushed(old(sources), source, value)
    {
      PushLevels(ops, sources, source, value);
      TailsPlaced(nodes, sources, tails, source, sources[source] + [value]);
      node.value := Xor(ops, node.value, value);
      tails := tails[source := node];
      sources := Pushed(sources, source, value);
    }

    method TailReferenced(target: StackNode<T>) returns (found: bool)
      ensures found <==> target in tails
    {
      for i := 0 to |tails|
        invariant target !in tails[..i]
      {
        if tails[i] == target {
          return true;
        }
      }
      return false;
    }

    method Pop(source: int) returns (r: Result<T>)
      requires Valid()
      modifies this, nodes
      ensures Valid() && forall n :: n in nodes ==> n in old(nodes)
      ensures r.Ok? <==> old(ValidSource(source) && sources[source] != [])
      ensures r.Ok? ==> r.value == old(sources)[source][|old(sources)[source]| - 1]
      ensures r.Ok? ==> sources == Popped(old(sources), source)
      ensures r.Err? ==> sources == old(sources)
    {
      if !ValidSource(source) {
        return Err(SourceOutOfRange);
      }
      var oldTail := tails[source];
      if oldTail == null {
        NoneDeeper(sources);
        return Err(SourceEmpty);
      }
      PopDepth(sources, source);
      var list := sources[source];
      var value := list[|list| - 1];
      Take(|list| - 1, oldTail, source, value);
      Trim(|list| - 1, oldTail);
      r := Ok(value);
    }

    // The old tail goes if it is the last node and no source ends there any more.
    method Trim(ghost d: nat, node: StackNode<T>)
      requires Linked() && Tails() && Carries() && d < |nodes| && node == nodes[d]
      modifies `head, `nodes, nodes`next
      ensures Linked() && Tails() && Carries()
      ensures nodes == if d == |old(nodes)| - 1 && (forall s :: 0 <= s < |sources| ==> |sources[s]| != |old(nodes)|)
                       then old(nodes)[..d] else old(nodes)
    {
      if node.next == null {
        var referenced := TailReferenced(node);
        LastIsTail(node);
        if !referenced {
          DropLast(node);
        }
      }
    }

    // The top element of a source goes; its node stays for now.
    method Take(ghost d: nat, node: StackNode<T>, source: nat, value: T)
      requires Valid() && source < |sources| && sources[source] != []
      requires d == |sources[source]| - 1 && d < |nodes| && node == nodes[d] && value == sources[source][d]
      modifies node`value, `tails, `sources
      ensures Linked() && Tails() && Carries() && sources == Popped(old(sources), source)
    {
      PopLevels(ops, sources, source);
      TailsPlaced(nodes, sources, tails, source, sources[source][..d]);
      node.value := Xor(ops, node.value, value);
      tails := tails[source := node.previous];
      sources := Popped(sources, source);
    }

    lemma LastIsTail(node: StackNode<T>)
      requires Linked() && Tails() && nodes != [] && node == nodes[|nodes| - 1]
      ensures node in tails <==> exists s :: 0 <= s < |sources| && |sources[s]| == |nodes|
    {
      if node in tails {
        var s :| 0 <= s < |tails| && tails[s] == node;
        assert |sources[s]| == |nodes|;
      }
      forall s | 0 <= s < |sources| && |sources[s]| == |nodes| ensures node in tails {
        assert tails[s] == node;
      }
    }

    method DropLast(node: StackNode<T>)
      requires Linked() && Tails() && Carries() && nodes != [] && node == nodes[|nodes| - 1]
      requires forall s :: 0 <= s < |sources| ==> |sources[s]| != |nodes|
      modifies `head, `nodes, nodes`next
      ensures Linked() && Tails() && Carries() && nodes == old(nodes)[..|old(nodes)| - 1]
    {
      if node.previous == null {
        head := null;
      } else {
        node.previous.next := null;
      }
      ghost var was := nodes;
      nodes := nodes[..|nodes| - 1];
      assert was == nodes + [node];
      TailsMoreNodes(nodes, [node], sources, tails);
    }

    method Recover(missing: int, survivors: map<int, seq<T>>) returns (r: Result<seq<T>>)
      requires Valid()
      ensures r.Ok? <==>
                && ValidSource(missing) && |survivors| == |sources| - 1
                && forall s :: s in survivors ==> ValidSource(s) && s != missing
      ensures r.Ok? && (forall s :: s in survivors ==> AgreesTo(survivors[s], sources[s], |sources[missing]|))
              ==> r.value == sources[missing]
    {
      if !ValidSource(missing) {
        return Err(SourceOutOfRange);
      }
      if |survivors| != |sources| - 1 {
        return Err(WrongSurvivorCount);
      }
      NoneDeeper(sources);
      PeeledStart(ops, sources, |sources[missing]|);
      var out := FirstValues(|sources[missing]|);
      r := RecoverFrom(ops, |sources|, missing, out, survivors, sources);
    }

    method FirstValues(n: nat) returns (out: seq<T>)
      requires Valid() && n <= |nodes|
      ensures out == Fused(ops, sources)[..n]
    {
      out := [];
      var node := head;
      while |out| < n
        invariant |out| <= n && node == Ref(|out|)
        invariant out == Fused(ops, sources)[..|out|]
      {
        out, node := out + [node.value], node.next;
      }
    }

    method Fusion() returns (out: seq<T>)
      requires Valid()
      ensures out == Fused(ops, sources)
    {
      out := [];
      var node := head;
      while node != null
        invariant |out| <= |nodes| && node == Ref(|out|)
        invariant out == Fused(ops, sources)[..|out|]
        decreases |nodes| - |out|
      {
        out, node := out + [node.value], node.next;
      }
    }
  }

  /** Fed the same pushes and pops, both stacks hold the same fusion. */
  method FusionsAgree<T(==,!new)>(a: FusedStack<T>, b: FusedListStack<T>) returns (inArray: seq<T>, inList: seq<T>)
    requires a.Valid() && b.Valid() && a.ops == b.ops && a.sources == b.sources
    ensures inArray == inList && |inList| == Deepest(a.sources) == |b.nodes|
  {
    inArray := a.fusion;
    inList := b.Fusion();
  }
}
