/**
 * Iteration over live entities (`EntityIter` / `FilteredEntityIter` in
 * src/entity.rs). The hash table's values arrive in an unspecified order,
 * so the inner iterator visits the live entities' keys in any order, each
 * once, and yields their bindings.
 * The aspect check, which reads component state, is a predicate parameter.
 */
module EntityIters {
  import opened Results
  import opened Sequences
  import opened Entities

  /** The reference: the elements of `xs` that pass `check`, in their order. */
  function Filter<X(==)>(xs: seq<X>, check: X -> bool): (ys: seq<X>)
    ensures |ys| <= |xs|
    ensures forall y | y in ys :: y in xs && check(y)
    ensures forall x | x in xs && check(x) :: x in ys
    decreases |xs|
  {
    if xs == [] then []
    else if check(xs[0]) then [xs[0]] + Filter(xs[1..], check)
    else Filter(xs[1..], check)
  }

  /**
   * One step of the filtered iterator: skips elements that fail the check,
   * yields the first that passes, and leaves the inner iterator just past it.
   * Once the inner sequence is exhausted it yields `None`, and keeps doing so.
   */
  function Next<X(==)>(inner: seq<X>, check: X -> bool): (r: (Option<X>, seq<X>))
    ensures |r.1| <= |inner| && r.1 == inner[|inner| - |r.1|..]
    ensures r.0.None? ==> r.1 == [] && Filter(inner, check) == []
    ensures r.0.Some? ==>
      && check(r.0.value)
      && |r.1| < |inner|
      && inner[|inner| - |r.1| - 1] == r.0.value
      && (forall k | 0 <= k < |inner| - |r.1| - 1 :: !check(inner[k]))
      && Filter(inner, check) == [r.0.value] + Filter(r.1, check)
    decreases |inner|
  {
    if inner == [] then (None, [])
    else if check(inner[0]) then (Some(inner[0]), inner[1..])
    else Next(inner[1..], check)
  }

  /** Drives the filtered iterator to exhaustion; it yields exactly `Filter`. */
  method Collect<X(==)>(inner: seq<X>, check: X -> bool) returns (out: seq<X>)
    ensures out == Filter(inner, check)
  {
    out := [];
    var rest := inner;
    while true
      invariant out + Filter(rest, check) == Filter(inner, check)
      decreases |rest|
    {
      var (item, rest') := Next(rest, check);
      if item.None? {
        break;
      }
      out := out + [item.value];
      rest := rest';
    }
  }

  lemma {:induction false} FilterDistinct<X>(xs: seq<X>, check: X -> bool)
    requires Distinct(xs)
    ensures Distinct(Filter(xs, check))
    decreases |xs|
  {
    if xs != [] {
      var tail := xs[1..];
      DistinctSlice(xs, 1, |xs|);
      FilterDistinct(tail, check);
      if check(xs[0]) {
        var ys := Filter(tail, check);
        forall k | 0 <= k < |tail|
          ensures tail[k] != xs[0]
        {
          assert tail[k] == xs[k + 1];
        }
        assert xs[0] !in ys;
        var zs := [xs[0]] + ys;
        forall i, j | 0 <= i < j < |zs|
          ensures zs[i] != zs[j]
        {
          if i == 0 {
            assert zs[j] == ys[j - 1];
          } else {
            assert zs[i] == ys[i - 1] && zs[j] == ys[j - 1];
          }
        }
      }
    }
  }

  /** `keys` visits every live entity once, in some order. */
  ghost predicate VisitsLive(keys: seq<Entity>, live: map<Entity, IndexedEntity>) {
    Distinct(keys) && Elements(keys) == live.Keys
  }

  /**
   * One pass of the unfiltered iterator over the table's values, taking
   * the keys in the order `keys`.
   */
  function Pass(live: map<Entity, IndexedEntity>, keys: seq<Entity>): seq<IndexedEntity>
    requires forall k | k in keys :: k in live
  {
    seq(|keys|, i requires 0 <= i < |keys| => live[keys[i]])
  }

  /** The aspect check lifted to the table's keys. */
  function KeyCheck(live: map<Entity, IndexedEntity>, check: IndexedEntity -> bool): Entity -> bool {
    k => k in live && check(live[k])
  }

  /** No two live entities share a binding. */
  ghost predicate BindingsDistinct(live: map<Entity, IndexedEntity>) {
    forall k1, k2 | k1 in live && k2 in live && k1 != k2 :: live[k1] != live[k2]
  }

  /** Filtering a pass is the pass over the keys whose binding passes. */
  lemma {:induction false} FilterPass(live: map<Entity, IndexedEntity>, keys: seq<Entity>, check: IndexedEntity -> bool)
    requires forall k | k in keys :: k in live
    ensures Filter(Pass(live, keys), check) == Pass(live, Filter(keys, KeyCheck(live, check)))
    decreases |keys|
  {
    if keys != [] {
      var tail := keys[1..];
      assert Pass(live, keys) == [live[keys[0]]] + Pass(live, tail);
      assert Pass(live, keys)[1..] == Pass(live, tail);
      FilterPass(live, tail, check);
      var ks := Filter(tail, KeyCheck(live, check));
      if check(live[keys[0]]) {
        assert Pass(live, [keys[0]] + ks) == [live[keys[0]]] + Pass(live, ks);
      }
    }
  }

  /** Distinct keys with distinct bindings give a pass without repetitions. */
  lemma PassDistinct(live: map<Entity, IndexedEntity>, keys: seq<Entity>)
    requires forall k | k in keys :: k in live
    requires Distinct(keys) && BindingsDistinct(live)
    ensures Distinct(Pass(live, keys))
  {
  }

  /**
   * Filtering one pass over the live entities yields, for each live entity
   * whose binding passes the check, its binding exactly once, in visiting
   * order, and nothing else; so when K live entities pass, exactly K
   * elements come out. When no two live entities share a binding, no
   * element repeats.
   */
  lemma FilterLive(keys: seq<Entity>, live: map<Entity, IndexedEntity>, check: IndexedEntity -> bool)
    requires VisitsLive(keys, live)
    ensures var ks := Filter(keys, KeyCheck(live, check));
      && Distinct(ks) && Elements(ks) == set k | k in live && check(live[k])
      && Filter(Pass(live, keys), check) == Pass(live, ks)
    ensures Elements(Filter(Pass(live, keys), check)) == set k | k in live && check(live[k]) :: live[k]
    ensures |Filter(Pass(live, keys), check)| == |set k | k in live && check(live[k])|
    ensures BindingsDistinct(live) ==> Distinct(Filter(Pass(live, keys), check))
  {
    var p := KeyCheck(live, check);
    var ks := Filter(keys, p);
    FilterPass(live, keys, check);
    FilterDistinct(keys, p);
    DistinctCardinality(ks);
    assert Elements(ks) == set k | k in live && check(live[k]);
    var ys := Pass(live, ks);
    assert Elements(ys) == set k | k in live && check(live[k]) :: live[k] by {
      forall y | y in ys
        ensures y in set k | k in live && check(live[k]) :: live[k]
      {
        var i :| 0 <= i < |ys| && ys[i] == y;
        assert ks[i] in ks;
      }
      forall k | k in live && check(live[k])
        ensures live[k] in Elements(ys)
      {
        assert k in Elements(ks);
        var i :| 0 <= i < |ks| && ks[i] == k;
        assert ys[i] == live[k];
      }
    }
    if BindingsDistinct(live) {
      PassDistinct(live, ks);
    }
  }
}
