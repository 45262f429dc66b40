/** Walking a finite set one element at a time. */
module Sets {

  /** The next key of a map iteration: any of those still to come. */
  method AnyOf<T>(keys: set<T>) returns (key: T)
    requires keys != {}
    ensures key in keys
  {
    key :| key in keys;
  }

  lemma OneLess<T>(keys: set<T>, todo: set<T>, key: T)
    requires todo <= keys && key in todo
    ensures keys - (todo - {key}) == keys - todo + {key} && key !in keys - todo
  {
  }

  ghost function Below(n: nat): set<int> {
    if n == 0 then {} else Below(n - 1) + {n - 1}
  }

  lemma {:induction false} BelowSize(n: nat)
    ensures |Below(n)| == n && forall s :: s in Below(n) <==> 0 <= s < n
  {
    if n > 0 {
      BelowSize(n - 1);
    }
  }

  // ----- the sources other than the missing one

  ghost function Others(n: nat, missing: nat): set<int> {
    Below(n) - {missing}
  }

  lemma OthersAre(n: nat, missing: nat, keys: set<int>)
    requires forall s :: s in keys <==> 0 <= s < n && s != missing
    ensures keys == Others(n, missing)
  {
    BelowSize(n);
    assert forall s :: s in Others(n, missing) <==> 0 <= s < n && s != missing;
  }

  lemma OthersComplete(n: nat, missing: nat, keys: set<int>)
    requires missing < n
    ensures forall s :: s in Others(n, missing) <==> 0 <= s < n && s != missing
    ensures |keys| == n - 1 && (forall s :: s in keys ==> 0 <= s < n && s != missing) ==> keys == Others(n, missing)
  {
    BelowSize(n);
    if |keys| == n - 1 && (forall s :: s in keys ==> 0 <= s < n && s != missing) {
      assert |Others(n, missing)| == n - 1;
      assert |Others(n, missing) - keys| == 0;
    }
  }
}
