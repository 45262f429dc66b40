/** structures/array.go and core.XORSlices: arrays of fixed lengths, fused index
    by index, with the exclusive-or of the lengths kept beside the fusion. */
module Arrays {
  import opened Words
  import opened Grids
  import opened Results
  import opened Sets
  import opened Stacks
  import opened Runs

  const LENGTH_OPS: XorOps<nat> := XorOps(0, XorDigits)

  lemma LengthOpsLawful()
    ensures Lawful(LENGTH_OPS)
  {
    forall a: nat ensures Xor(LENGTH_OPS, a, 0) == a && Xor(LENGTH_OPS, a, a) == 0 {
      XorDigitsZero(a);
    }
    forall a: nat, b: nat ensures Xor(LENGTH_OPS, a, b) == Xor(LENGTH_OPS, b, a) {
      XorDigitsSymmetric(a, b);
    }
    forall a: nat, b: nat, c: nat
      ensures Xor(LENGTH_OPS, Xor(LENGTH_OPS, a, b), c) == Xor(LENGTH_OPS, a, Xor(LENGTH_OPS, b, c))
    {
      XorDigitsAssociative(a, b, c);
    }
  }

  function Lengths<T>(sources: seq<seq<T>>): seq<nat> {
    seq(|sources|, s requires 0 <= s < |sources| => |sources[s]|)
  }

  /** The lengths of the survivors in done, zero for every other source. */
  function LengthsIn<T>(n: nat, survivors: map<int, seq<T>>, done: set<int>): seq<nat>
    requires done <= survivors.Keys
  {
    seq(n, s requires 0 <= s < n => if s in done then |survivors[s]| else 0)
  }

  method ParityOf<T>(sources: seq<seq<T>>) returns (parity: nat)
    ensures parity == Fold(LENGTH_OPS, Lengths(sources))
  {
    parity := LENGTH_OPS.zero;
    for i := 0 to |sources|
      invariant parity == Fold(LENGTH_OPS, Lengths(sources)[..i])
    {
      assert Lengths(sources)[..i + 1][..i] == Lengths(sources)[..i];
      parity := Xor(LENGTH_OPS, parity, |sources[i]|);
    }
    assert Lengths(sources)[..|sources|] == Lengths(sources);
  }

  /** core.XORSlices */
  method XORSlices<T(!new)>(ops: XorOps<T>, sources: seq<seq<T>>) returns (out: seq<T>)
    requires Lawful(ops)
    ensures out == Fused(ops, sources) && IsLongest(|out|, sources)
  {
    var max := 0;
    for s := 0 to |sources|
      invariant max == Deepest(sources[..s])
    {
      assert sources[..s + 1][..s] == sources[..s];
      if |sources[s]| > max {
        max := |sources[s]|;
      }
    }
    assert sources[..|sources|] == sources;
    NoneDeeper(sources);
    DeepestIs(sources, max);
    out := seq(max, _ => ops.zero);
    for s := 0 to |sources|
      invariant |out| == max
      invariant forall d :: 0 <= d < max ==> out[d] == Level(ops, sources[..s], d)
    {
      ghost var before := out;
      for i := 0 to |sources[s]|
        invariant |out| == max
        invariant forall d :: 0 <= d < max ==>
                    out[d] == if d < i then Xor(ops, before[d], sources[s][d]) else before[d]
      {
        out := out[i := Xor(ops, out[i], sources[s][i])];
      }
      forall d | 0 <= d < max ensures out[d] == Level(ops, sources[..s + 1], d) {
        OneMoreSource(ops, sources, s, d);
      }
    }
  }

  lemma OneMoreSource<T(!new)>(ops: XorOps<T>, sources: seq<seq<T>>, s: nat, d: nat)
    requires Lawful(ops) && s < |sources|
    ensures Level(ops, sources[..s + 1], d) ==
              Xor(ops, Level(ops, sources[..s], d), if d < |sources[s]| then sources[s][d] else ops.zero)
  {
    var w := Summands(ops, Slot(sources[..s + 1], d));
    assert w[..s] == Summands(ops, Slot(sources[..s], d));
  }

  lemma SetLevel<T(!new)>(ops: XorOps<T>, sources: seq<seq<T>>, s: nat, i: nat, x: T)
    requires Lawful(ops) && s < |sources| && i < |sources[s]|
    ensures var now := sources[s := sources[s][i := x]];
            && Deepest(now) == Deepest(sources) && i < Deepest(sources)
            && Fused(ops, now) == Fused(ops, sources)[i := Replace(ops, Fused(ops, sources)[i], sources[s][i], x)]
  {
    var now := sources[s := sources[s][i := x]];
    NoneDeeper(sources);
    SameLengths(sources, now);
    var c := Slot(sources, i);
    PayloadSet(ops, c, s, x);
    assert Slot(now, i) == c[s := Some(x)];
    forall d: nat | d != i ensures Slot(now, d) == Slot(sources, d) {
    }
  }

  lemma {:induction false} SameLengths<T>(a: seq<seq<T>>, b: seq<seq<T>>)
    requires |a| == |b| && forall s :: 0 <= s < |a| ==> |a[s]| == |b[s]|
    ensures Deepest(a) == Deepest(b)
  {
    if a != [] {
      SameLengths(a[..|a| - 1], b[..|b| - 1]);
    }
  }

  /** The parity without the other lengths is the missing one. */
  lemma LengthLeft<T>(sources: seq<seq<T>>, survivors: map<int, seq<T>>, missing: nat)
    requires missing < |sources| && survivors.Keys == Others(|sources|, missing)
    requires forall s :: s in survivors ==> 0 <= s < |sources| && |survivors[s]| == |sources[s]|
    ensures Xor(LENGTH_OPS, Fold(LENGTH_OPS, Lengths(sources)),
                Fold(LENGTH_OPS, LengthsIn(|sources|, survivors, survivors.Keys))) == |sources[missing]|
  {
    LengthOpsLawful();
    OthersComplete(|sources|, missing, survivors.Keys);
    var all, n := Lengths(sources), |sources|;
    assert LengthsIn(n, survivors, survivors.Keys) == all[missing := 0];
    FoldReplace(LENGTH_OPS, all, missing, 0);
    var f, l := Fold(LENGTH_OPS, all), all[missing];
    assert Fold(LENGTH_OPS, all[missing := 0]) == Xor(LENGTH_OPS, f, l);
    assert Xor(LENGTH_OPS, f, Xor(LENGTH_OPS, f, l)) == Xor(LENGTH_OPS, Xor(LENGTH_OPS, f, l), f);
    Swap(LENGTH_OPS, f, l, f);
    ZeroLeft(LENGTH_OPS, l);
  }

  class FusedArray<T(!new)> {
    const ops: XorOps<T>
    var sources: seq<seq<T>>
    var fusion: seq<T>
    var lengthParity: nat

    ghost predicate Valid()
      reads this
    {
      Lawful(ops) && fusion == Fused(ops, sources) && lengthParity == Fold(LENGTH_OPS, Lengths(sources))
    }

    constructor (ops: XorOps<T>, sources: seq<seq<T>>)
      requires Lawful(ops)
      ensures Valid() && this.sources == sources && this.ops == ops
    {
      var parity := ParityOf(sources);
      var fused := XORSlices(ops, sources);
      this.ops := ops;
      this.sources, this.fusion, this.lengthParity := sources, fused, parity;
    }

    method Set(source: int, index: int, value: T) returns (r: Result<()>)
      requires Valid()
      modifies this
      ensures Valid()
      ensures r.Ok? <==> old(0 <= source < |sources| && 0 <= index < |sources[source]|)
      ensures r.Ok? ==> sources == old(sources)[source := old(sources)[source][index := value]]
      ensures r.Err? ==> sources == old(sources)
    {
      if source < 0 || source >= |sources| {
        return Err(SourceOutOfRange);
      }
      if index < 0 || index >= |sources[source]| {
        return Err(IndexOutOfRange);
      }
      var was := sources[source][index];
      SetLevel(ops, sources, source, index, value);
      sources := sources[source := sources[source][index := value]];
      assert Lengths(sources) == Lengths(old(sources));
      fusion := fusion[index := Replace(ops, fusion[index], was, value)];
      r := Ok(());
    }

    /** The length that the survivors leave for the missing source. */
    ghost function LengthFor(survivors: map<int, seq<T>>): nat
      reads this
    {
      Xor(LENGTH_OPS, lengthParity, Fold(LENGTH_OPS, LengthsIn(|sources|, survivors, survivors.Keys)))
    }

    /** Survivors of the right lengths are always accepted, and true ones give back the missing array. */
    method Recover(missing: int, survivors: map<int, seq<T>>) returns (r: Result<seq<T>>)
      requires Valid()
      ensures r.Ok? <==>
                && 0 <= missing < |sources| && |survivors| == |sources| - 1
                && (forall s :: s in survivors ==> 0 <= s < |sources| && s != missing)
                && LengthFor(survivors) <= |fusion|
      ensures 0 <= missing < |sources| && |survivors| == |sources| - 1
              && (forall s :: s in survivors ==> 0 <= s < |sources| && s != missing && |survivors[s]| == |sources[s]|)
              ==> r.Ok? && |r.value| == |sources[missing]|
      ensures r.Ok? && (forall s :: s in survivors ==> survivors[s] == sources[s]) ==> r.value == sources[missing]
    {
      if missing < 0 || missing >= |sources| {
        return Err(SourceOutOfRange);
      }
      if |survivors| != |sources| - 1 {
        return Err(WrongSurvivorCount);
      }
      var length, ok := RemainingLength(missing, survivors);
      if !ok {
        return Err(InvalidSurvivor);
      }
      assert |survivors.Keys| == |survivors|;
      OthersComplete(|sources|, missing, survivors.Keys);
      NoneDeeper(sources);
      ghost var fits := forall s :: s in survivors ==> |survivors[s]| == |sources[s]|;
      if fits {
        LengthLeft(sources, survivors, missing);
      }
      if length > |fusion| {
        return Err(LengthExceedsFusion);
      }
      PeeledStart(ops, sources, length);
      var out := Peel(fusion[..length], survivors);
      if fits && forall s :: s in survivors ==> survivors[s] == sources[s] {
        OnlyMissing(ops, sources, missing, out, survivors.Keys);
      }
      r := Ok(out);
    }

    method RemainingLength(missing: int, survivors: map<int, seq<T>>) returns (length: nat, ok: bool)
      requires Valid()
      ensures ok <==> forall s :: s in survivors ==> 0 <= s < |sources| && s != missing
      ensures ok ==> length == LengthFor(survivors)
    {
      LengthOpsLawful();
      length := lengthParity;
      var todo := survivors.Keys;
      ghost var done: set<int> := {};
      FoldZeros(LENGTH_OPS, LengthsIn(|sources|, survivors, done));
      while todo != {}
        invariant todo <= survivors.Keys && done == survivors.Keys - todo
        invariant length == Xor(LENGTH_OPS, lengthParity, Fold(LENGTH_OPS, LengthsIn(|sources|, survivors, done)))
        invariant forall s :: s in done ==> 0 <= s < |sources| && s != missing
      {
        var source := AnyOf(todo);
        if source < 0 || source >= |sources| || source == missing {
          return length, false;
        }
        LengthStep(|sources|, survivors, done, source, lengthParity);
        length := XorDigits(length, |survivors[source]|);
        OneLess(survivors.Keys, todo, source);
        todo, done := todo - {source}, done + {source};
      }
      assert done == survivors.Keys;
      ok := true;
    }

    method Peel(start: seq<T>, survivors: map<int, seq<T>>) returns (out: seq<T>)
      requires Valid() && Peeled(ops, sources, start, {})
      requires forall s :: s in survivors ==> 0 <= s < |sources|
      ensures |out| == |start|
      ensures (forall s :: s in survivors ==> survivors[s] == sources[s]) ==> Peeled(ops, sources, out, survivors.Keys)
    {
      out := start;
      var todo := survivors.Keys;
      ghost var done: set<int> := {};
      ghost var exact := forall s :: s in survivors ==> survivors[s] == sources[s];
      while todo != {}
        invariant todo <= survivors.Keys && done == survivors.Keys - todo
        invariant |out| == |start| && (exact ==> Peeled(ops, sources, out, done))
      {
        var source := AnyOf(todo);
        out := Subtract(ops, out, survivors[source], sources, source, done);
        OneLess(survivors.Keys, todo, source);
        todo, done := todo - {source}, done + {source};
      }
      assert done == survivors.Keys;
    }
  }

  lemma LengthStep<T>(n: nat, survivors: map<int, seq<T>>, done: set<int>, s: nat, parity: nat)
    requires done <= survivors.Keys && s in survivors && s !in done && s < n
    ensures Xor(LENGTH_OPS, parity, Fold(LENGTH_OPS, LengthsIn(n, survivors, done + {s}))) ==
            Xor(LENGTH_OPS, Xor(LENGTH_OPS, parity, Fold(LENGTH_OPS, LengthsIn(n, survivors, done))), |survivors[s]|)
  {
    LengthOpsLawful();
    var w := LengthsIn(n, survivors, done);
    assert LengthsIn(n, survivors, done + {s}) == w[s := |survivors[s]|];
    FoldFill(LENGTH_OPS, parity, w, s, |survivors[s]|);
  }
}
