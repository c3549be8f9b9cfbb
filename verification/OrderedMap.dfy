/**
  A JavaScript `Map`: insertion-ordered, one value per key. `Put` on a key that is already present
  overwrites in place and keeps the key's position; a new key goes to the end.
 */
module OrderedMap {
  import opened Wrappers

  type Pairs<K, V> = seq<(K, V)>

  predicate Distinct<K(==), V>(m: Pairs<K, V>) {
    forall i, j :: 0 <= i < j < |m| ==> m[i].0 != m[j].0
  }

  ghost function Keys<K, V>(m: Pairs<K, V>): set<K> {
    set i | 0 <= i < |m| :: m[i].0
  }

  function Get<K(==), V>(m: Pairs<K, V>, k: K): Option<V> {
    if m == [] then None else if m[0].0 == k then Some(m[0].1) else Get(m[1..], k)
  }

  function Put<K(==), V>(m: Pairs<K, V>, k: K, v: V): Pairs<K, V> {
    if m == [] then [(k, v)]
    else if m[0].0 == k then [(k, v)] + m[1..]
    else [m[0]] + Put(m[1..], k, v)
  }

  function Remove<K(==), V>(m: Pairs<K, V>, k: K): Pairs<K, V> {
    if m == [] then []
    else if m[0].0 == k then m[1..]
    else [m[0]] + Remove(m[1..], k)
  }

  lemma {:induction false} GetIsMember<K, V>(m: Pairs<K, V>, k: K)
    ensures Get(m, k).Some? <==> k in Keys(m)
    ensures Get(m, k).Some? ==> (k, Get(m, k).value) in m
  {
    if m != [] {
      assert m == [m[0]] + m[1..];
      GetIsMember(m[1..], k);
      assert Keys(m) == {m[0].0} + Keys(m[1..]);
    }
  }

  lemma {:induction false} MemberIsGet<K, V>(m: Pairs<K, V>, k: K, v: V)
    requires Distinct(m) && (k, v) in m
    ensures Get(m, k) == Some(v)
  {
    var i :| 0 <= i < |m| && m[i] == (k, v);
    if i > 0 {
      assert m[1..][i - 1] == (k, v);
      MemberIsGet(m[1..], k, v);
    }
  }

  lemma {:induction false} PutSpec<K, V>(m: Pairs<K, V>, k: K, v: V)
    requires Distinct(m)
    ensures Distinct(Put(m, k, v))
    ensures Keys(Put(m, k, v)) == Keys(m) + {k}
    ensures forall j :: Get(Put(m, k, v), j) == if j == k then Some(v) else Get(m, j)
    ensures |Put(m, k, v)| == if k in Keys(m) then |m| else |m| + 1
  {
    var r := Put(m, k, v);
    if m == [] {
      assert Keys(r) == {k} by { assert r[0].0 == k; }
    } else if m[0].0 == k {
      assert r[0] == (k, v) && r[1..] == m[1..];
      assert Keys(m) == {k} + Keys(m[1..]) == Keys(r) by { KeysCons(m); KeysCons(r); }
    } else {
      var t := Put(m[1..], k, v);
      PutSpec(m[1..], k, v);
      assert r[0] == m[0] && r[1..] == t;
      KeysCons(m);
      KeysCons(r);
      forall j | 0 < j < |r| ensures r[j].0 != r[0].0 {
        assert r[j] == t[j - 1] && t[j - 1].0 in Keys(t);
        assert m[0].0 !in Keys(m[1..]);
      }
    }
  }

  lemma KeysCons<K, V>(m: Pairs<K, V>)
    requires m != []
    ensures Keys(m) == {m[0].0} + Keys(m[1..])
  {
    forall k | k in Keys(m) ensures k in {m[0].0} + Keys(m[1..]) {
      var i :| 0 <= i < |m| && m[i].0 == k;
      if i > 0 { assert m[1..][i - 1].0 == k; }
    }
  }

  lemma {:induction false} RemoveSpec<K, V>(m: Pairs<K, V>, k: K)
    requires Distinct(m)
    ensures Distinct(Remove(m, k))
    ensures Keys(Remove(m, k)) == Keys(m) - {k}
    ensures forall j :: Get(Remove(m, k), j) == if j == k then None else Get(m, j)
    ensures |Remove(m, k)| == if k in Keys(m) then |m| - 1 else |m|
  {
    var r := Remove(m, k);
    if m == [] {
    } else if m[0].0 == k {
      KeysCons(m);
      assert k !in Keys(m[1..]);
      GetIsMember(m[1..], k);
    } else {
      RemoveSpec(m[1..], k);
      KeysCons(m);
      var t := Remove(m[1..], k);
      assert r[0] == m[0] && r[1..] == t;
      KeysCons(r);
      forall j | 0 < j < |r| ensures r[j].0 != r[0].0 {
        assert r[j] == t[j - 1] && t[j - 1].0 in Keys(t);
        assert m[0].0 !in Keys(m[1..]);
      }
    }
  }

  lemma {:induction false} SizeIsKeys<K, V>(m: Pairs<K, V>)
    requires Distinct(m)
    ensures |Keys(m)| == |m|
  {
    if m != [] {
      SizeIsKeys(m[1..]);
      KeysCons(m);
      assert m[0].0 !in Keys(m[1..]);
    }
  }

  // ---------- order ----------

  /** Key `a` stands before key `b`. */
  ghost predicate Before<K, V>(m: Pairs<K, V>, a: K, b: K) {
    exists i, j :: 0 <= i < j < |m| && m[i].0 == a && m[j].0 == b
  }

  /** A new key goes to the end; a key that is there keeps its place. */
  lemma {:induction false} PutPlace<K, V>(m: Pairs<K, V>, k: K, v: V)
    ensures k !in Keys(m) ==> Put(m, k, v) == m + [(k, v)]
    ensures k in Keys(m) ==>
              |Put(m, k, v)| == |m| && forall i :: 0 <= i < |m| ==> Put(m, k, v)[i].0 == m[i].0
  {
    if m != [] {
      KeysCons(m);
      if m[0].0 != k {
        PutPlace(m[1..], k, v);
        assert m == [m[0]] + m[1..];
      }
    }
  }

  /** Removing a key closes the gap. */
  lemma {:induction false} RemovePlace<K, V>(m: Pairs<K, V>, i: nat)
    requires Distinct(m) && i < |m|
    ensures Remove(m, m[i].0) == m[..i] + m[i + 1..]
  {
    if i > 0 {
      RemovePlace(m[1..], i - 1);
      assert m[..i] == [m[0]] + m[1..][..i - 1] && m[1..][i..] == m[i + 1..];
    }
  }

  lemma {:induction false} RemoveMissing<K, V>(m: Pairs<K, V>, k: K)
    requires k !in Keys(m)
    ensures Remove(m, k) == m
  {
    if m != [] {
      KeysCons(m);
      RemoveMissing(m[1..], k);
    }
  }

  /** Leaving out one entry keeps the others in order, and drops only its key. */
  lemma GapKeepsOrder<K, V>(m: Pairs<K, V>, i: nat, a: K, b: K)
    requires i < |m| && Before(m[..i] + m[i + 1..], a, b)
    ensures Before(m, a, b)
  {
    var t := m[..i] + m[i + 1..];
    var p, q :| 0 <= p < q < |t| && t[p].0 == a && t[q].0 == b;
    var p', q' := if p < i then p else p + 1, if q < i then q else q + 1;
    assert m[p'].0 == a && m[q'].0 == b;
  }

  lemma RemoveKeepsOrder<K, V>(m: Pairs<K, V>, k: K, a: K, b: K)
    requires Distinct(m) && Before(Remove(m, k), a, b)
    ensures Before(m, a, b)
  {
    if k in Keys(m) {
      var i :| 0 <= i < |m| && m[i].0 == k;
      RemovePlace(m, i);
      GapKeepsOrder(m, i, a, b);
    } else {
      RemoveMissing(m, k);
    }
  }

  /** After a `Put`, either the order is the old one, or the key is new and stands last. */
  lemma PutKeepsOrder<K, V>(m: Pairs<K, V>, k: K, v: V, a: K, b: K)
    requires Before(Put(m, k, v), a, b)
    ensures k in Keys(m) ==> Before(m, a, b)
    ensures k !in Keys(m) ==> a != k && (b == k || Before(m, a, b))
  {
    var t := Put(m, k, v);
    PutPlace(m, k, v);
    var p, q :| 0 <= p < q < |t| && t[p].0 == a && t[q].0 == b;
    if k !in Keys(m) {
      assert t[p] == m[p];
      if q < |m| { assert t[q] == m[q]; }
    } else {
      assert m[p].0 == a && m[q].0 == b;
    }
  }
}
