/** Ordered maps over a run: when new keys only come in at the end, the keys stand in the order in which they came. */
module HeldOrder {
  import opened OrderedMap

  /** A map before and after each step of a run; step `i` puts the keys `enters[i]` at its end. */
  datatype Trace<K, V> = Trace(maps: seq<Pairs<K, V>>, enters: seq<set<K>>)

  /** No key stands before another that it did not stand before, except that those which come in stand last. */
  ghost predicate KeepsOrder<K(!new), V>(m: Pairs<K, V>, after: Pairs<K, V>, enters: set<K>) {
    forall a, b :: Before(after, a, b) ==> a !in enters && (b in enters || Before(m, a, b))
  }

  /** A key is in the map after a step only if it was there or comes in. */
  ghost predicate KeepsKeys<K, V>(m: Pairs<K, V>, after: Pairs<K, V>, enters: set<K>) {
    Keys(after) <= Keys(m) + enters
  }

  ghost predicate StepFits<K(!new), V>(t: Trace<K, V>, i: nat) {
    i + 1 < |t.maps| && i < |t.enters|
    && KeepsOrder(t.maps[i], t.maps[i + 1], t.enters[i]) && KeepsKeys(t.maps[i], t.maps[i + 1], t.enters[i])
  }

  ghost predicate Fits<K(!new), V>(t: Trace<K, V>) {
    && |t.maps| == |t.enters| + 1 && t.maps[0] == []
    && forall i: nat :: i < |t.enters| ==> StepFits(t, i)
  }

  /** In the first `n` steps, step `x` brought `k` in, and it has been there without a break ever since. */
  ghost predicate HeldSince<K, V>(t: Trace<K, V>, n: nat, k: K, x: nat) {
    && x < n <= |t.enters| && |t.maps| == |t.enters| + 1
    && k in t.enters[x]
    && (forall j :: x < j <= n ==> k in Keys(t.maps[j]))
    && (forall j :: x < j < n ==> k !in t.enters[j])
  }

  /** Every key in the map has been there since some step. */
  lemma {:induction false} HeldSinceSome<K(!new), V>(t: Trace<K, V>, n: nat, k: K) returns (x: nat)
    requires Fits(t) && n <= |t.enters| && k in Keys(t.maps[n])
    ensures HeldSince(t, n, k, x)
  {
    assert StepFits(t, n - 1);
    if k in t.enters[n - 1] {
      x := n - 1;
    } else {
      x := HeldSinceSome(t, n - 1, k);
    }
  }

  /** The keys stand in the order of the steps since which they have been in the map. */
  lemma {:induction false} KeysInOrder<K(!new), V>(t: Trace<K, V>, n: nat, a: K, b: K, x: nat, y: nat)
    requires Fits(t) && n <= |t.enters| && Before(t.maps[n], a, b)
    requires HeldSince(t, n, a, x) && HeldSince(t, n, b, y)
    ensures x < y
  {
    assert StepFits(t, n - 1);
    if y < n - 1 { KeysInOrder(t, n - 1, a, b, x, y); }
  }
}
