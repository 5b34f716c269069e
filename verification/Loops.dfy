/**
 Loops whose course depends on finitely many things: they end soon or never.
 */
module Loops {
  import opened Wrappers

  /** From s the loop ends after coming round at most n times; `step` gives the state in which it comes
      round, if it does. */
  ghost predicate Halts<S>(step: S -> Option<S>, s: S, n: nat)
    decreases n
  {
    step(s).Some? ==> n > 0 && Halts(step, step(s).value, n - 1)
  }

  /** What the loop does in a state depends on a key below `bound` alone. */
  ghost predicate Keyed<S(!new)>(step: S -> Option<S>, key: S -> nat, bound: nat) {
    && (forall s: S :: key(s) < bound)
    && forall s: S, t: S :: key(s) == key(t) ==> SameStep(step, key, s, t)
  }

  ghost predicate SameStep<S>(step: S -> Option<S>, key: S -> nat, s: S, t: S) {
    if step(s).None? then step(t).None? else step(t).Some? && key(step(s).value) == key(step(t).value)
  }

  lemma {:induction false} HaltsLater<S>(step: S -> Option<S>, s: S, n: nat, m: nat)
    requires Halts(step, s, n) && n <= m
    ensures Halts(step, s, m)
    decreases n
  {
    if step(s).Some? {
      HaltsLater(step, step(s).value, n - 1, m - 1);
    }
  }

  lemma {:induction false} SameHalts<S(!new)>(step: S -> Option<S>, key: S -> nat, bound: nat, s: S, t: S, n: nat)
    requires Keyed(step, key, bound) && key(s) == key(t) && Halts(step, s, n)
    ensures Halts(step, t, n)
    decreases n
  {
    assert SameStep(step, key, s, t);
    if step(s).Some? {
      SameHalts(step, key, bound, step(s).value, step(t).value, n - 1);
    }
  }

  /** It comes round exactly n times. */
  ghost predicate Rounds<S>(step: S -> Option<S>, s: S, n: nat) {
    Halts(step, s, n) && (n > 0 ==> !Halts(step, s, n - 1))
  }

  lemma {:induction false} SomeRounds<S>(step: S -> Option<S>, s: S, n: nat) returns (m: nat)
    requires Halts(step, s, n)
    ensures m <= n && Rounds(step, s, m)
    decreases n
  {
    if n > 0 && Halts(step, s, n - 1) {
      m := SomeRounds(step, s, n - 1);
    } else {
      m := n;
    }
  }

  /** The keys on the way to the end are all different. */
  lemma {:induction false} KeysOnTheWay<S(!new)>(step: S -> Option<S>, key: S -> nat, bound: nat, s: S, n: nat)
    returns (keys: set<nat>)
    requires Keyed(step, key, bound) && Rounds(step, s, n)
    ensures |keys| == n + 1 && forall k <- keys :: k < bound
    ensures forall t: S, m: nat :: m > n && Rounds(step, t, m) ==> key(t) !in keys
    decreases n
  {
    var before: set<nat> := {};
    if n > 0 {
      before := KeysOnTheWay(step, key, bound, step(s).value, n - 1);
    }
    keys := before + {key(s)};
    forall t: S, m: nat | m > n && Rounds(step, t, m)
      ensures key(t) != key(s)
    {
      if key(t) == key(s) {
        SameHalts(step, key, bound, s, t, n);
        HaltsLater(step, t, n, m - 1);
      }
    }
  }

  lemma {:induction false} FewKeys(keys: set<nat>, bound: nat)
    requires forall k <- keys :: k < bound
    ensures |keys| <= bound
    decreases bound
  {
    if bound == 0 {
      assert keys == {};
    } else {
      FewKeys(keys - {bound - 1}, bound - 1);
    }
  }

  /** A loop that ends at all comes round less often than it has keys. */
  lemma EndsSoon<S(!new)>(step: S -> Option<S>, key: S -> nat, bound: nat, s: S, n: nat)
    requires Keyed(step, key, bound) && Halts(step, s, n)
    ensures bound > 0 && Halts(step, s, bound - 1)
  {
    var m := SomeRounds(step, s, n);
    var keys := KeysOnTheWay(step, key, bound, s, m);
    FewKeys(keys, bound);
    HaltsLater(step, s, m, bound - 1);
  }
}
