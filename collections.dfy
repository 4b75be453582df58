/**
 * Sequences built by a loop over a Go map. Go leaves the iteration order of a
 * map unspecified, so a result built that way is described as `Flatten(order,
 * f)` for SOME `order` that enumerates the map's keys; the lemmas here say
 * which facts about such a result do not depend on the order.
 */
module Collections {

  /** `order` lists every element of `keys` exactly once. */
  ghost predicate Enumerates<K>(order: seq<K>, keys: set<K>) {
    multiset(order) == multiset(keys)
  }

  /** The concatenation of `f(k)` for the `k` of `order`, appended left to right. */
  function Flatten<K, V>(order: seq<K>, f: K -> seq<V>): seq<V> {
    if order == [] then [] else Flatten(order[..|order| - 1], f) + f(order[|order| - 1])
  }

  /**
   * A map loop before its first step: nothing visited. The set is written `keys - keys`
   * because that is the loop invariant's `keys - remaining` at entry, where `remaining == keys`.
   */
  lemma EnumeratesEmpty<K>(keys: set<K>)
    ensures Enumerates([], keys - keys)
  {
    assert keys - keys == {};
  }

  /** One more step of a loop that picks `k` from the keys not yet visited. */
  lemma EnumeratesStep<K>(order: seq<K>, keys: set<K>, remaining: set<K>, k: K)
    requires remaining <= keys && k in remaining
    requires Enumerates(order, keys - remaining)
    ensures Enumerates(order + [k], keys - (remaining - {k}))
  {
    var done := keys - remaining;
    assert keys - (remaining - {k}) == done + {k};
    assert k !in done;
    MultisetAddNew(done, k);
    assert multiset(order + [k]) == multiset(order) + multiset{k};
  }

  /** Adding a new element to a set adds one occurrence to its multiset. */
  lemma MultisetAddNew<K>(s: set<K>, k: K)
    requires k !in s
    ensures multiset(s + {k}) == multiset(s) + multiset{k}
  {
    forall x ensures multiset(s + {k})[x] == (multiset(s) + multiset{k})[x] {
      if x == k {
      } else {
      }
    }
  }

  lemma EnumeratesMember<K>(order: seq<K>, keys: set<K>, k: K)
    requires Enumerates(order, keys)
    ensures k in order <==> k in keys
  {
    assert k in order <==> k in multiset(order);
    assert k in keys <==> k in multiset(keys);
  }

  lemma EnumeratesLength<K>(order: seq<K>, keys: set<K>)
    requires Enumerates(order, keys)
    ensures |order| == |keys|
  {
    assert |multiset(order)| == |order|;
    assert |multiset(keys)| == |keys|;
  }

  /** An enumeration of a set never lists a key twice. */
  lemma EnumeratesDistinct<K>(order: seq<K>, keys: set<K>, i: int, j: int)
    requires Enumerates(order, keys) && 0 <= i < j < |order|
    ensures order[i] != order[j]
  {
    var x, y := order[i], order[j];
    assert order == order[..j] + order[j..];
    assert order[..j][i] == x && order[j..][0] == y;
    assert multiset(order)[x] == multiset(order[..j])[x] + multiset(order[j..])[x];
    assert multiset(order[..j])[x] >= 1 && multiset(order[j..])[y] >= 1;
    assert multiset(keys)[x] <= 1;
  }

  /** Visiting one more key appends that key's contribution. */
  lemma FlattenSnoc<K, V>(order: seq<K>, k: K, f: K -> seq<V>)
    ensures Flatten(order + [k], f) == Flatten(order, f) + f(k)
  {
    assert (order + [k])[..|order|] == order;
  }

  lemma {:induction false} FlattenAppend<K, V>(x: seq<K>, y: seq<K>, f: K -> seq<V>)
    ensures Flatten(x + y, f) == Flatten(x, f) + Flatten(y, f)
    decreases |y|
  {
    if y == [] {
      assert x + y == x;
    } else {
      var y' := y[..|y| - 1];
      assert (x + y)[..|x + y| - 1] == x + y';
      FlattenAppend(x, y', f);
    }
  }

  lemma {:induction false} FlattenMember<K, V>(order: seq<K>, f: K -> seq<V>, v: V)
    ensures v in Flatten(order, f) <==> exists i :: 0 <= i < |order| && v in f(order[i])
  {
    if order != [] {
      var init := order[..|order| - 1];
      FlattenMember(init, f, v);
      if v in Flatten(init, f) {
        var i :| 0 <= i < |init| && v in f(init[i]);
        assert order[i] == init[i];
      }
      if i :| 0 <= i < |order| && v in f(order[i]) {
        if i < |init| {
          assert init[i] == order[i];
        }
      }
    }
  }

  /** Flattening around one position: what comes before it, its key's part, what comes after it. */
  lemma FlattenSplit<K, V>(q: seq<K>, j: int, f: K -> seq<V>)
    requires 0 <= j < |q|
    ensures Flatten(q, f) == Flatten(q[..j], f) + f(q[j]) + Flatten(q[j + 1..], f)
  {
    var init, after := q[..j], q[j + 1..];
    SplitAt(q, j);
    FlattenAppend(init + [q[j]], after, f);
    FlattenSnoc(init, q[j], f);
  }

  /** A sequence is what comes before position `j`, the element at `j`, and what comes after. */
  lemma SplitAt<K>(q: seq<K>, j: int)
    requires 0 <= j < |q|
    ensures q == q[..j] + [q[j]] + q[j + 1..]
  {
  }

  /**
   * The multiset of a flattened result does not depend on the order in which
   * the keys were visited: any two orders with the same elements give results
   * that are permutations of each other.
   */
  lemma {:induction false} FlattenPermutation<K, V>(p: seq<K>, q: seq<K>, f: K -> seq<V>)
    requires multiset(p) == multiset(q)
    ensures multiset(Flatten(p, f)) == multiset(Flatten(q, f))
    decreases |p|
  {
    if p == [] {
      assert |q| == |multiset(q)| == 0;
    } else {
      var x := p[|p| - 1];
      var p' := p[..|p| - 1];
      assert p == p' + [x];
      assert x in multiset(q);
      var j :| 0 <= j < |q| && q[j] == x;
      var q' := q[..j] + q[j + 1..];
      assert q == q[..j] + [x] + q[j + 1..];
      assert multiset(p') == multiset(q') by {
        assert multiset(p') == multiset(p) - multiset{x};
        assert multiset(q') == multiset(q) - multiset{x};
      }
      FlattenPermutation(p', q', f);
      FlattenSplit(q, j, f);
      FlattenAppend(q[..j], q[j + 1..], f);
    }
  }

  /** The set of elements of a sequence. */
  function Elements<T>(s: seq<T>): set<T> {
    set x | x in s
  }

  lemma ElementsSnoc<T>(s: seq<T>, x: T)
    ensures Elements(s + [x]) == Elements(s) + {x}
  {
  }

  /** A sequence that lists no element twice has the multiset of its set of elements. */
  lemma {:induction false} DistinctMultiset<T>(s: seq<T>)
    requires forall i, j :: 0 <= i < j < |s| ==> s[i] != s[j]
    ensures multiset(s) == multiset(Elements(s))
  {
    if s != [] {
      var init, x := s[..|s| - 1], s[|s| - 1];
      assert s == init + [x];
      DistinctMultiset(init);
      ElementsSnoc(init, x);
      assert x !in Elements(init) by {
        forall i | 0 <= i < |init| ensures init[i] != x {
          assert init[i] == s[i];
        }
      }
      MultisetAddNew(Elements(init), x);
    }
  }
}
