/** The dictionary a Python loop builds with `d[k] = v`: one entry per distinct key, the value
    written by the last element that had that key. */
module Dicts {

  function LastWins<T, K, V>(xs: seq<T>, key: T -> K, val: T -> V): map<K, V>
    decreases |xs|
  {
    if xs == [] then map[]
    else LastWins(xs[..|xs| - 1], key, val)[key(xs[|xs| - 1]) := val(xs[|xs| - 1])]
  }

  /** One more loop iteration adds, or overwrites, exactly one entry. */
  lemma LastWinsStep<T, K, V>(xs: seq<T>, i: nat, key: T -> K, val: T -> V)
    requires i < |xs|
    ensures LastWins(xs[..i + 1], key, val) == LastWins(xs[..i], key, val)[key(xs[i]) := val(xs[i])]
  {
    assert xs[..i + 1][..i] == xs[..i];
  }

  /** The keys are exactly the keys of the elements. */
  lemma {:induction false} LastWinsKeys<T, K, V>(xs: seq<T>, key: T -> K, val: T -> V, k: K)
    ensures k in LastWins(xs, key, val) <==> exists i :: 0 <= i < |xs| && key(xs[i]) == k
    decreases |xs|
  {
    if xs != [] {
      var init := xs[..|xs| - 1];
      LastWinsKeys(init, key, val, k);
      if k in LastWins(init, key, val) {
        var i :| 0 <= i < |init| && key(init[i]) == k;
        assert key(xs[i]) == k;
      }
      if i :| 0 <= i < |xs| && key(xs[i]) == k {
        if i < |xs| - 1 {
          assert init[i] == xs[i];
        }
      }
    }
  }

  /** The value under a key is the one written by the last element with that key. */
  lemma {:induction false} LastWinsValue<T, K, V>(xs: seq<T>, key: T -> K, val: T -> V, i: nat)
    requires i < |xs|
    requires forall j :: i < j < |xs| ==> key(xs[j]) != key(xs[i])
    ensures key(xs[i]) in LastWins(xs, key, val)
    ensures LastWins(xs, key, val)[key(xs[i])] == val(xs[i])
    decreases |xs|
  {
    if i < |xs| - 1 {
      var init := xs[..|xs| - 1];
      assert init[i] == xs[i];
      LastWinsValue(init, key, val, i);
    }
  }
}
