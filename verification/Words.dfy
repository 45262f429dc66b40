/** The XOR algebra that every fused structure rests on (core/xor.go).

    The Go code is generic over core.Word, the unsigned integer types with the
    operator ^.  Here that constraint is passed as a dictionary: the zero of the
    type and its exclusive-or.  Everything above this module uses the dictionary
    through the four laws of Lawful only.  The lemmas at the end show the laws for
    64-bit words; Tables shows them for key-value pairs and Arrays for lengths. */
module Words {

  datatype XorOps<!T> = XorOps(zero: T, xor: (T, T) -> T)

  function Xor<T>(ops: XorOps<T>, a: T, b: T): T {
    ops.xor(a, b)
  }

  // Regroup names the one instance of associativity a proof wants, so that the
  // law is not applied to every sum in sight.
  function Regroup<T>(a: T, b: T, c: T): bool { true }

  ghost predicate Lawful<T(!new)>(ops: XorOps<T>) {
    && (forall a :: Xor(ops, a, ops.zero) == a)
    && (forall a :: Xor(ops, a, a) == ops.zero)
    && (forall a, b :: Xor(ops, a, b) == Xor(ops, b, a))
    && (forall a, b, c {:trigger Regroup(a, b, c)} ::
          Xor(ops, Xor(ops, a, b), c) == Xor(ops, a, Xor(ops, b, c)))
  }

  /** The exclusive-or of a whole sequence. */
  function Fold<T>(ops: XorOps<T>, values: seq<T>): T {
    if values == [] then ops.zero
    else Xor(ops, Fold(ops, values[..|values| - 1]), values[|values| - 1])
  }

  /** core.Replace: take one value out of a fusion and put another in. */
  function Replace<T>(ops: XorOps<T>, fusion: T, oldValue: T, newValue: T): T {
    Xor(ops, Xor(ops, fusion, oldValue), newValue)
  }

  // ----- rearrangements

  lemma Swap<T(!new)>(ops: XorOps<T>, a: T, b: T, c: T)
    requires Lawful(ops)
    ensures Xor(ops, Xor(ops, a, b), c) == Xor(ops, Xor(ops, a, c), b)
  {
    assert Regroup(a, b, c) && Regroup(a, c, b);
  }

  lemma Interchange<T(!new)>(ops: XorOps<T>, a: T, b: T, c: T, d: T)
    requires Lawful(ops)
    ensures Xor(ops, Xor(ops, a, b), Xor(ops, c, d)) == Xor(ops, Xor(ops, a, c), Xor(ops, b, d))
  {
    var ab := Xor(ops, a, b);
    var ac := Xor(ops, a, c);
    assert Regroup(ab, c, d) && Regroup(ac, b, d);
    Swap(ops, a, b, c);
  }

  lemma Cancel<T(!new)>(ops: XorOps<T>, a: T, b: T)
    requires Lawful(ops)
    ensures Xor(ops, Xor(ops, a, b), b) == a
  {
    assert Regroup(a, b, b);
  }

  lemma ZeroLeft<T(!new)>(ops: XorOps<T>, a: T)
    requires Lawful(ops)
    ensures Xor(ops, ops.zero, a) == a
  {
    assert Xor(ops, ops.zero, a) == Xor(ops, a, ops.zero);
  }

  // ----- folds

  lemma {:induction false} FoldReplace<T(!new)>(ops: XorOps<T>, values: seq<T>, i: nat, x: T)
    requires Lawful(ops) && i < |values|
    ensures Fold(ops, values[i := x]) == Replace(ops, Fold(ops, values), values[i], x)
  {
    var last := |values| - 1;
    var init := values[..last];
    var rest := Fold(ops, init);
    var updated := values[i := x];
    if i == last {
      assert updated[..last] == init;
      Cancel(ops, rest, values[last]);
    } else {
      assert updated[..last] == init[i := x];
      FoldReplace(ops, init, i, x);
      Swap(ops, rest, values[i], values[last]);
      Swap(ops, Xor(ops, rest, values[i]), x, values[last]);
    }
  }

  /** Filling a zero place adds to any sum that includes the fold. */
  lemma FoldFill<T(!new)>(ops: XorOps<T>, other: T, values: seq<T>, i: nat, x: T)
    requires Lawful(ops) && i < |values| && values[i] == ops.zero
    ensures Xor(ops, other, Fold(ops, values[i := x])) == Xor(ops, Xor(ops, other, Fold(ops, values)), x)
  {
    FoldReplace(ops, values, i, x);
    assert Regroup(other, Fold(ops, values), x);
  }

  lemma {:induction false} FoldZeros<T(!new)>(ops: XorOps<T>, values: seq<T>)
    requires Lawful(ops)
    requires forall i :: 0 <= i < |values| ==> values[i] == ops.zero
    ensures Fold(ops, values) == ops.zero
  {
    if values != [] {
      FoldZeros(ops, values[..|values| - 1]);
    }
  }

  lemma {:induction false} FoldOnly<T(!new)>(ops: XorOps<T>, values: seq<T>, k: nat)
    requires Lawful(ops) && k < |values|
    requires forall i :: 0 <= i < |values| && i != k ==> values[i] == ops.zero
    ensures Fold(ops, values) == values[k]
  {
    var zeros := values[k := ops.zero];
    FoldZeros(ops, zeros);
    FoldReplace(ops, zeros, k, values[k]);
    assert zeros[k := values[k]] == values;
    ZeroLeft(ops, values[k]);
  }

  /** A pointwise sum folds to the sum of the folds. */
  lemma {:induction false} FoldPointwise<T(!new)>(ops: XorOps<T>, a: seq<T>, b: seq<T>, sum: seq<T>)
    requires Lawful(ops) && |a| == |b| == |sum|
    requires forall i :: 0 <= i < |sum| ==> sum[i] == Xor(ops, a[i], b[i])
    ensures Fold(ops, sum) == Xor(ops, Fold(ops, a), Fold(ops, b))
  {
    if sum != [] {
      var last := |sum| - 1;
      FoldPointwise(ops, a[..last], b[..last], sum[..last]);
      Interchange(ops, Fold(ops, a[..last]), Fold(ops, b[..last]), a[last], b[last]);
    }
  }

  lemma {:induction false} FoldAppend<T(!new)>(ops: XorOps<T>, a: seq<T>, b: seq<T>)
    requires Lawful(ops)
    ensures Fold(ops, a + b) == Xor(ops, Fold(ops, a), Fold(ops, b))
  {
    if b == [] {
      assert a + b == a;
    } else {
      var last := |b| - 1;
      assert (a + b)[..|a| + last] == a + b[..last];
      FoldAppend(ops, a, b[..last]);
      assert Regroup(Fold(ops, a), Fold(ops, b[..last]), b[last]);
    }
  }

  // ----- core/xor.go

  /** core.XOR */
  method XorAll<T(!new)>(ops: XorOps<T>, values: seq<T>) returns (out: T)
    ensures out == Fold(ops, values)
  {
    out := ops.zero;
    for i := 0 to |values|
      invariant out == Fold(ops, values[..i])
    {
      assert values[..i + 1][..i] == values[..i];
      out := Xor(ops, out, values[i]);
    }
    assert values[..|values|] == values;
  }

  /** core.Recover: the fusion and all the other values give back the missing one. */
  method Recover<T(!new)>(ops: XorOps<T>, fusion: T, survivors: seq<T>) returns (missing: T)
    requires Lawful(ops)
    ensures forall before, x, after ::
              survivors == before + after && fusion == Fold(ops, before + [x] + after)
              ==> missing == x
  {
    var all := XorAll(ops, survivors);
    missing := Xor(ops, fusion, all);
    forall before, x, after |
      survivors == before + after && fusion == Fold(ops, before + [x] + after)
      ensures missing == x
    {
      RecoverOne(ops, before, x, after);
    }
  }

  lemma RecoverOne<T(!new)>(ops: XorOps<T>, before: seq<T>, x: T, after: seq<T>)
    requires Lawful(ops)
    ensures Xor(ops, Fold(ops, before + [x] + after), Fold(ops, before + after)) == x
  {
    FoldAppend(ops, before + [x], after);
    FoldAppend(ops, before, after);
    var b, a := Fold(ops, before), Fold(ops, after);
    assert (before + [x])[..|before|] == before;
    Swap(ops, b, x, a);
    var ba := Xor(ops, b, a);
    assert Xor(ops, Xor(ops, ba, x), ba) == Xor(ops, ba, Xor(ops, ba, x));
    assert Xor(ops, ba, x) == Xor(ops, x, ba);
    Cancel(ops, x, ba);
  }

  // ----- the exclusive-or of machine words

  const LIMIT: nat := 0x1_0000_0000_0000_0000
  type u64 = x: int | 0 <= x < LIMIT

  /** Exclusive-or on the binary digits of two numbers, lowest digit first. */
  function XorDigits(a: nat, b: nat): nat
    decreases a + b
  {
    if a + b == 0 then 0
    else (if a % 2 == b % 2 then 0 else 1) + 2 * XorDigits(a / 2, b / 2)
  }

  function Pow2(k: nat): nat {
    if k == 0 then 1 else 2 * Pow2(k - 1)
  }

  lemma {:induction false} XorDigitsBound(a: nat, b: nat, k: nat)
    requires a < Pow2(k) && b < Pow2(k)
    ensures XorDigits(a, b) < Pow2(k)
  {
    if k != 0 && a + b != 0 {
      XorDigitsBound(a / 2, b / 2, k - 1);
    }
  }

  lemma {:induction false} XorDigitsZero(a: nat)
    ensures XorDigits(a, 0) == a && XorDigits(a, a) == 0
  {
    if a != 0 {
      XorDigitsZero(a / 2);
    }
  }

  lemma {:induction false} XorDigitsSymmetric(a: nat, b: nat)
    ensures XorDigits(a, b) == XorDigits(b, a)
    decreases a + b
  {
    if a + b != 0 {
      XorDigitsSymmetric(a / 2, b / 2);
    }
  }

  lemma {:induction false} XorDigitsAssociative(a: nat, b: nat, c: nat)
    ensures XorDigits(XorDigits(a, b), c) == XorDigits(a, XorDigits(b, c))
    decreases a + b + c
  {
    if a + b + c != 0 {
      XorDigitsAssociative(a / 2, b / 2, c / 2);
      XorDigitsHalves(a, b);
      XorDigitsHalves(b, c);
      XorDigitsHalves(XorDigits(a, b), c);
      XorDigitsHalves(a, XorDigits(b, c));
    }
  }

  lemma XorDigitsHalves(a: nat, b: nat)
    ensures XorDigits(a, b) % 2 == (a + b) % 2
    ensures XorDigits(a, b) / 2 == XorDigits(a / 2, b / 2)
  {
    var low, high := if a % 2 == b % 2 then 0 else 1, XorDigits(a / 2, b / 2);
    assert XorDigits(a, b) == low + 2 * high;
    assert (low + 2 * high) / 2 == high;
  }

  lemma Pow2Of64()
    ensures Pow2(64) == LIMIT
  {
    assert Pow2(8) == 0x100;
    assert Pow2(16) == 0x1_0000;
    assert Pow2(24) == 0x100_0000;
    assert Pow2(32) == 0x1_0000_0000;
    assert Pow2(40) == 0x100_0000_0000;
    assert Pow2(48) == 0x1_0000_0000_0000;
    assert Pow2(56) == 0x100_0000_0000_0000;
  }

  function Xor64(a: u64, b: u64): u64 {
    Pow2Of64();
    XorDigitsBound(a, b, 64);
    XorDigits(a, b)
  }

  const WORD_OPS: XorOps<u64> := XorOps(0, Xor64)

  lemma WordOpsLawful()
    ensures Lawful(WORD_OPS)
  {
    forall a: u64 ensures Xor(WORD_OPS, a, 0) == a && Xor(WORD_OPS, a, a) == 0 {
      XorDigitsZero(a);
    }
    forall a: u64, b: u64 ensures Xor(WORD_OPS, a, b) == Xor(WORD_OPS, b, a) {
      XorDigitsSymmetric(a, b);
    }
    forall a: u64, b: u64, c: u64
      ensures Xor(WORD_OPS, Xor(WORD_OPS, a, b), c) == Xor(WORD_OPS, a, Xor(WORD_OPS, b, c))
    {
      XorDigitsAssociative(a, b, c);
    }
  }
}
