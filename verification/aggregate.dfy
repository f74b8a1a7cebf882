/** The average over the latest-state map:
    `values().stream().flatMap(Optional::stream).mapToDouble(..).average()`,
    with exact integer sum and count in place of a double. */
module Aggregate {
  import opened Wrappers
  import opened LatestState

  type Pos = n: nat | n > 0 witness 1

  /** A present average: the sum of the averaged values and how many there
      were. The count is positive, so "no data" is never a mean of zero. */
  datatype Mean = Mean(sum: int, count: Pos)

  /** `order` lists each key of `m` exactly once: one possible iteration
      order of the map's `values()`, which the library leaves unspecified. */
  predicate Enumerates(order: seq<string>, m: Table) {
    && (forall i, j :: 0 <= i < j < |order| ==> order[i] != order[j])
    && (forall i :: 0 <= i < |order| ==> order[i] in m)
    && (forall k :: k in m ==> k in order)
  }

  /** The map's values visited in `order`, with empty `Optional`s dropped. */
  function PresentValues(m: Table, order: seq<string>): (vs: seq<int>)
    ensures |vs| <= |order|
    ensures |vs| == 0 <==> forall i :: 0 <= i < |order| ==> Lookup(m, order[i]).None?
  {
    if |order| == 0 then []
    else
      var prefix := order[..|order| - 1];
      assert forall i :: 0 <= i < |prefix| ==> prefix[i] == order[i];
      var rest := PresentValues(m, prefix);
      match Lookup(m, order[|order| - 1])
      case None => rest
      case Some(v) => rest + [v]
  }

  function Sum(xs: seq<int>): int {
    if |xs| == 0 then 0 else Sum(xs[..|xs| - 1]) + xs[|xs| - 1]
  }

  /** `OptionalDouble average()`: empty for no values. */
  function Average(xs: seq<int>): Option<Mean> {
    if |xs| == 0 then None else Some(Mean(Sum(xs), |xs|))
  }

  /** The average over the map, visiting its values in `order`. It is
      present exactly when some entry holds a present value. */
  function Summarize(m: Table, order: seq<string>): (r: Option<Mean>)
    requires Enumerates(order, m)
    ensures r.Some? <==> exists k :: k in m && m[k].Some?
    ensures r.Some? ==> r.value.count <= |order|
  {
    var vs := PresentValues(m, order);
    assert (exists k :: k in m && m[k].Some?) ==> |vs| > 0 by {
      if k :| k in m && m[k].Some? {
        var i :| 0 <= i < |order| && order[i] == k;
      }
    }
    Average(vs)
  }

  lemma SumAppend(a: seq<int>, b: seq<int>)
    ensures Sum(a + b) == Sum(a) + Sum(b)
    decreases |b|
  {
    if |b| > 0 {
      assert (a + b)[..|a + b| - 1] == a + b[..|b| - 1];
      SumAppend(a, b[..|b| - 1]);
    } else {
      assert a + b == a;
    }
  }

  /** Finds the last element of `a` in its rearrangement `b`; removing it
      from both leaves rearrangements again. */
  lemma MatchLast<T>(a: seq<T>, b: seq<T>) returns (j: nat)
    requires |a| > 0 && multiset(a) == multiset(b)
    ensures j < |b| && b[j] == a[|a| - 1]
    ensures b == b[..j] + [b[j]] + b[j + 1..]
    ensures multiset(b[..j] + b[j + 1..]) == multiset(a[..|a| - 1])
  {
    var a', x := a[..|a| - 1], a[|a| - 1];
    assert a == a' + [x];
    assert x in multiset(b);
    j :| 0 <= j < |b| && b[j] == x;
    var b' := b[..j] + b[j + 1..];
    assert b == b[..j] + [x] + b[j + 1..];
    assert multiset(b) == multiset(b[..j]) + multiset{x} + multiset(b[j + 1..]);
    assert multiset(a) == multiset(a') + multiset{x};
    assert multiset(b') == multiset(b[..j]) + multiset(b[j + 1..]);
    forall e ensures multiset(b')[e] == multiset(a')[e] {
      assert multiset(a)[e] == multiset(b)[e];
    }
  }

  /** The sum depends only on which values there are, not on their order. */
  lemma {:induction false} SumPermutation(a: seq<int>, b: seq<int>)
    requires multiset(a) == multiset(b)
    ensures Sum(a) == Sum(b)
    decreases |a|
  {
    if |a| > 0 {
      var j := MatchLast(a, b);
      var b1, x, b2 := b[..j], b[j], b[j + 1..];
      SumPermutation(a[..|a| - 1], b1 + b2);
      SumAppend(b1 + [x], b2);
      SumAppend(b1, [x]);
      SumAppend(b1, b2);
    }
  }

  lemma PresentValuesAppend(m: Table, a: seq<string>, b: seq<string>)
    ensures PresentValues(m, a + b) == PresentValues(m, a) + PresentValues(m, b)
    decreases |b|
  {
    if |b| > 0 {
      assert (a + b)[..|a + b| - 1] == a + b[..|b| - 1];
      PresentValuesAppend(m, a, b[..|b| - 1]);
    } else {
      assert a + b == a;
    }
  }

  /** Visiting the same keys in another order yields the same values,
      possibly rearranged. */
  lemma {:induction false} PresentValuesPermutation(m: Table, a: seq<string>, b: seq<string>)
    requires multiset(a) == multiset(b)
    ensures multiset(PresentValues(m, a)) == multiset(PresentValues(m, b))
    decreases |a|
  {
    if |a| > 0 {
      var a', x := a[..|a| - 1], a[|a| - 1];
      assert a == a' + [x];
      var j := MatchLast(a, b);
      var b1, b2 := b[..j], b[j + 1..];
      PresentValuesPermutation(m, a', b1 + b2);
      PresentValuesAppend(m, a', [x]);
      PresentValuesAppend(m, b1 + [x], b2);
      PresentValuesAppend(m, b1, [x]);
      PresentValuesAppend(m, b1, b2);
    }
  }

  /** In a sequence without repeats every element occurs exactly once. */
  lemma {:induction false} DistinctOnce(o: seq<string>, k: string)
    requires forall i, j :: 0 <= i < j < |o| ==> o[i] != o[j]
    ensures multiset(o)[k] == if k in o then 1 else 0
    decreases |o|
  {
    if |o| > 0 {
      var o', x := o[..|o| - 1], o[|o| - 1];
      assert o == o' + [x];
      DistinctOnce(o', k);
      if x == k {
        forall i | 0 <= i < |o'| ensures o'[i] != k {
          assert o[i] == o'[i];
        }
      }
    }
  }

  /** Two enumerations of the same map differ only in order. */
  lemma EnumerationsArePermutations(m: Table, o1: seq<string>, o2: seq<string>)
    requires Enumerates(o1, m) && Enumerates(o2, m)
    ensures multiset(o1) == multiset(o2)
  {
    forall k ensures multiset(o1)[k] == multiset(o2)[k] {
      DistinctOnce(o1, k);
      DistinctOnce(o2, k);
      if k in o1 {
        var i :| 0 <= i < |o1| && o1[i] == k;
      }
      if k in o2 {
        var i :| 0 <= i < |o2| && o2[i] == k;
      }
    }
  }

  /** The average does not depend on the map's iteration order. */
  lemma SummarizeOrderIndependent(m: Table, o1: seq<string>, o2: seq<string>)
    requires Enumerates(o1, m) && Enumerates(o2, m)
    ensures Summarize(m, o1) == Summarize(m, o2)
  {
    EnumerationsArePermutations(m, o1, o2);
    PresentValuesPermutation(m, o1, o2);
    var v1, v2 := PresentValues(m, o1), PresentValues(m, o2);
    assert |v1| == |multiset(v1)| == |multiset(v2)| == |v2|;
    SumPermutation(v1, v2);
  }

  /** The distinct elements of a sequence without repeats number its
      length. */
  lemma {:induction false} DistinctCount(o: seq<string>)
    requires forall i, j :: 0 <= i < j < |o| ==> o[i] != o[j]
    ensures |set k | k in o| == |o|
    decreases |o|
  {
    if |o| > 0 {
      var o', x := o[..|o| - 1], o[|o| - 1];
      assert forall i, j :: 0 <= i < j < |o'| ==> o'[i] != o'[j] by {
        forall i, j | 0 <= i < j < |o'| ensures o'[i] != o'[j] {
          assert o[i] == o'[i] && o[j] == o'[j];
        }
      }
      DistinctCount(o');
      forall i | 0 <= i < |o'| ensures o'[i] != x {
        assert o[i] == o'[i];
      }
      assert (set k | k in o) == (set k | k in o') + {x};
    }
  }

  /** When every value is present, `flatMap(Optional::stream)` drops
      nothing. */
  lemma {:induction false} AllPresentKeepsAll(m: Table, order: seq<string>)
    requires forall i :: 0 <= i < |order| ==> order[i] in m
    requires forall k :: k in m ==> m[k].Some?
    ensures PresentValues(m, order) == seq(|order|, i requires 0 <= i < |order| => m[order[i]].value)
    decreases |order|
  {
    if |order| > 0 {
      AllPresentKeepsAll(m, order[..|order| - 1]);
    }
  }

  /** Over a map whose values are all present, the average is present
      exactly when the map is non-empty, and then it averages one value
      per key. */
  lemma SummarizeAllPresent(m: Table, order: seq<string>)
    requires Enumerates(order, m)
    requires forall k :: k in m ==> m[k].Some?
    ensures Summarize(m, order).Some? <==> |m| > 0
    ensures Summarize(m, order).Some? ==> Summarize(m, order).value.count == |m|
  {
    AllPresentKeepsAll(m, order);
    DistinctCount(order);
    assert (set k | k in order) == m.Keys;
  }

  /** What one entry contributes to the sum: its value, or nothing when
      the `Optional` is empty. */
  function Contribution(m: Table, k: string): int {
    match Lookup(m, k)
    case None => 0
    case Some(v) => v
  }

  /** Some key of a non-empty map. */
  ghost function Pick(m: Table): string
    requires |m| > 0
  {
    assert |m.Keys| > 0;
    var k :| k in m; k
  }

  /** Reference definition, free of any iteration order: the sum of the
      present values of the map. */
  ghost function MapSum(m: Table): int
    decreases |m|
  {
    if |m| == 0 then 0
    else
      var k := Pick(m);
      Contribution(m, k) + MapSum(m - {k})
  }

  /** `MapSum` may peel off any key, not only the one `Pick` chooses. */
  lemma {:induction false} MapSumRemove(m: Table, k: string)
    requires k in m
    ensures MapSum(m) == Contribution(m, k) + MapSum(m - {k})
    decreases |m|
  {
    var j := Pick(m);
    if j != k {
      assert |m - {j}| == |m| - 1;
      assert |m - {k}| == |m| - 1;
      MapSumRemove(m - {j}, k);
      MapSumRemove(m - {k}, j);
      assert m - {j} - {k} == m - {k} - {j};
      assert Contribution(m - {j}, k) == Contribution(m, k);
      assert Contribution(m - {k}, j) == Contribution(m, j);
    }
  }

  /** Visiting keys that avoid `x` sees the same values with or without
      `x` in the map. */
  lemma {:induction false} PresentValuesWithout(m: Table, x: string, order: seq<string>)
    requires forall i :: 0 <= i < |order| ==> order[i] != x
    ensures PresentValues(m, order) == PresentValues(m - {x}, order)
    decreases |order|
  {
    if |order| > 0 {
      PresentValuesWithout(m, x, order[..|order| - 1]);
      assert Lookup(m, order[|order| - 1]) == Lookup(m - {x}, order[|order| - 1]);
    }
  }

  /** Dropping the last key of an enumeration enumerates the rest of the
      map. */
  lemma EnumerationWithoutLast(m: Table, order: seq<string>)
    requires Enumerates(order, m)
    requires |order| > 0
    ensures order[|order| - 1] in m
    ensures Enumerates(order[..|order| - 1], m - {order[|order| - 1]})
  {
    var o', x := order[..|order| - 1], order[|order| - 1];
    forall i | 0 <= i < |o'| ensures o'[i] != x && o'[i] in m {
      assert o'[i] == order[i];
    }
    forall k | k in m - {x} ensures k in o' {
      var i :| 0 <= i < |order| && order[i] == k;
      assert o'[i] == k;
    }
  }

  /** Summing the values met along any enumeration gives the map's sum. */
  lemma {:induction false} SumAlongEnumeration(m: Table, order: seq<string>)
    requires Enumerates(order, m)
    ensures Sum(PresentValues(m, order)) == MapSum(m)
    decreases |order|
  {
    if |order| == 0 {
      assert m.Keys == {};
    } else {
      var o', x := order[..|order| - 1], order[|order| - 1];
      EnumerationWithoutLast(m, order);
      SumAlongEnumeration(m - {x}, o');
      PresentValuesWithout(m, x, o');
      MapSumRemove(m, x);
      var rest := PresentValues(m, o');
      match Lookup(m, x)
      case None =>
      case Some(v) =>
        assert (rest + [v])[..|rest + [v]| - 1] == rest;
    }
  }

  /** The reported average sums exactly the present values of the map,
      whatever order the map is iterated in. */
  lemma SummarizeSumIsMapSum(m: Table, order: seq<string>)
    requires Enumerates(order, m)
    ensures Summarize(m, order).Some? ==> Summarize(m, order).value.sum == MapSum(m)
  {
    SumAlongEnumeration(m, order);
  }

  /** The keys whose `Optional` is present. */
  ghost function PresentKeys(m: Table): set<string> {
    set k | k in m && m[k].Some?
  }

  /** Flattening along any enumeration keeps one value per present key. */
  lemma {:induction false} CountAlongEnumeration(m: Table, order: seq<string>)
    requires Enumerates(order, m)
    ensures |PresentValues(m, order)| == |PresentKeys(m)|
    decreases |order|
  {
    if |order| == 0 {
      assert m.Keys == {};
      assert PresentKeys(m) == {};
    } else {
      var o', x := order[..|order| - 1], order[|order| - 1];
      EnumerationWithoutLast(m, order);
      CountAlongEnumeration(m - {x}, o');
      PresentValuesWithout(m, x, o');
      var rest := PresentKeys(m - {x});
      assert x !in rest;
      if m[x].Some? {
        assert PresentKeys(m) == rest + {x};
      } else {
        assert PresentKeys(m) == rest;
      }
    }
  }

  /** A present average counts exactly the keys whose value is present. */
  lemma SummarizeCountsPresent(m: Table, order: seq<string>)
    requires Enumerates(order, m)
    ensures Summarize(m, order).Some? ==> Summarize(m, order).value.count == |PresentKeys(m)|
  {
    CountAlongEnumeration(m, order);
  }
}
