/** `records.sort(Comparator.comparingInt(o -> o.event_id))`: a stable sort
    by ascending event id, rendered as an insertion sort over sequences. */
module Ordering {
  import opened Records

  /** Non-decreasing by event id. */
  predicate Sorted(s: seq<DataRecord>) {
    forall i, j :: 0 <= i < j < |s| ==> s[i].eventId <= s[j].eventId
  }

  /** The records of `s` with event id `k`, in their order in `s`. Two
      arrangements agree on every `WithId` exactly when equal ids keep their
      relative order. */
  function WithId(s: seq<DataRecord>, k: int): seq<DataRecord> {
    if |s| == 0 then []
    else WithId(s[..|s| - 1], k) + (if s[|s| - 1].eventId == k then [s[|s| - 1]] else [])
  }

  /** `WithId(s, k)` holds exactly the records of `s` whose id is `k`. */
  lemma {:induction false} InWithId(s: seq<DataRecord>, k: int, x: DataRecord)
    ensures x in WithId(s, k) <==> x in s && x.eventId == k
    decreases |s|
  {
    if |s| > 0 {
      InWithId(s[..|s| - 1], k, x);
      assert s == s[..|s| - 1] + [s[|s| - 1]];
    }
  }

  /** `WithId` of a sequence extended by one record. */
  lemma WithIdSnoc(s: seq<DataRecord>, x: DataRecord, k: int)
    ensures WithId(s + [x], k) == WithId(s, k) + (if x.eventId == k then [x] else [])
  {
    assert (s + [x])[..|s|] == s;
  }

  /** Appending a record no smaller than everything before it keeps a
      sequence sorted. */
  lemma SortedSnoc(q: seq<DataRecord>, y: DataRecord)
    requires Sorted(q)
    requires forall i :: 0 <= i < |q| ==> q[i].eventId <= y.eventId
    ensures Sorted(q + [y])
  {
  }

  /** Inserts `x` into a sorted sequence after every record whose id is not
      larger than its own, so that it lands behind the equal ids already
      there. */
  function Insert(t: seq<DataRecord>, x: DataRecord): (r: seq<DataRecord>)
    requires Sorted(t)
    ensures Sorted(r)
    ensures multiset(r) == multiset(t) + multiset{x}
  {
    if |t| == 0 then [x]
    else
      var y := t[|t| - 1];
      var p := t[..|t| - 1];
      assert t == p + [y];
      if y.eventId <= x.eventId then
        SortedSnoc(t, x);
        t + [x]
      else
        assert Sorted(p) by {
          forall i, j | 0 <= i < j < |p| ensures p[i].eventId <= p[j].eventId {
            assert t[i] == p[i] && t[j] == p[j];
          }
        }
        var q := Insert(p, x);
        BoundedByLast(p, x, y, q);
        SortedSnoc(q, y);
        q + [y]
  }

  /** A rearrangement of `p` plus `x` stays below a bound that `x` and
      every record of `p` are below. */
  lemma BoundedByLast(p: seq<DataRecord>, x: DataRecord, y: DataRecord, q: seq<DataRecord>)
    requires Sorted(p + [y]) && x.eventId < y.eventId
    requires multiset(q) == multiset(p) + multiset{x}
    ensures forall i :: 0 <= i < |q| ==> q[i].eventId <= y.eventId
  {
    forall i | 0 <= i < |q| ensures q[i].eventId <= y.eventId {
      var z := q[i];
      assert z in multiset(q);
      if z != x {
        assert z in multiset(p);
        var j :| 0 <= j < |p| && p[j] == z;
        assert (p + [y])[j] == z && (p + [y])[|p|] == y;
      }
    }
  }

  /** The insertion sort, taking the records in input order. */
  function SortById(s: seq<DataRecord>): (r: seq<DataRecord>)
    ensures Sorted(r)
    ensures multiset(r) == multiset(s)
  {
    if |s| == 0 then []
    else
      assert s == s[..|s| - 1] + [s[|s| - 1]];
      Insert(SortById(s[..|s| - 1]), s[|s| - 1])
  }

  /** Inserting `x` appends it to the records that share its id and leaves
      every other id's records alone. */
  lemma {:induction false} InsertWithId(t: seq<DataRecord>, x: DataRecord, k: int)
    requires Sorted(t)
    ensures WithId(Insert(t, x), k) == WithId(t, k) + (if x.eventId == k then [x] else [])
    decreases |t|
  {
    if |t| > 0 {
      var y, p := t[|t| - 1], t[..|t| - 1];
      if y.eventId <= x.eventId {
        WithIdSnoc(t, x, k);
      } else {
        SortedPrefix(t);
        InsertWithId(p, x, k);
        WithIdSnoc(Insert(p, x), y, k);
      }
    }
  }

  /** The sort is stable: for every id, the records carrying it come out in
      their input order. */
  lemma {:induction false} SortByIdStable(s: seq<DataRecord>, k: int)
    ensures WithId(SortById(s), k) == WithId(s, k)
    decreases |s|
  {
    if |s| > 0 {
      var p, x := s[..|s| - 1], s[|s| - 1];
      SortByIdStable(p, k);
      InsertWithId(SortById(p), x, k);
    }
  }

  /** Dropping the last record keeps a sequence sorted. */
  lemma SortedPrefix(s: seq<DataRecord>)
    requires Sorted(s) && |s| > 0
    ensures Sorted(s[..|s| - 1])
  {
    var p := s[..|s| - 1];
    forall i, j | 0 <= i < j < |p| ensures p[i].eventId <= p[j].eventId {
      assert s[i] == p[i] && s[j] == p[j];
    }
  }

  /** In a sorted sequence no record has an id above the last one's. */
  lemma LastIsLargest(s: seq<DataRecord>, x: DataRecord)
    requires Sorted(s) && x in s
    ensures x.eventId <= s[|s| - 1].eventId
  {
    var i :| 0 <= i < |s| && s[i] == x;
  }

  /** A non-empty sequence has records with some id. */
  lemma NonEmptyHasId(s: seq<DataRecord>)
    ensures |s| > 0 ==> WithId(s, s[|s| - 1].eventId) != []
  {
    if |s| > 0 {
      InWithId(s, s[|s| - 1].eventId, s[|s| - 1]);
    }
  }

  /** Two sorted, non-empty sequences that agree on every id's records end
      with the same record: both end with the last record of the largest id. */
  lemma LastsAgree(a: seq<DataRecord>, b: seq<DataRecord>)
    requires Sorted(a) && Sorted(b) && |a| > 0 && |b| > 0
    requires forall k :: WithId(a, k) == WithId(b, k)
    ensures a[|a| - 1] == b[|b| - 1]
  {
    var x, y := a[|a| - 1], b[|b| - 1];
    InWithId(a, x.eventId, x);
    InWithId(b, x.eventId, x);
    LastIsLargest(b, x);
    InWithId(b, y.eventId, y);
    InWithId(a, y.eventId, y);
    LastIsLargest(a, y);
    var w := WithId(a, x.eventId);
    assert w == WithId(a[..|a| - 1], x.eventId) + [x];
    assert w == WithId(b[..|b| - 1], x.eventId) + [y];
    assert w[|w| - 1] == x && w[|w| - 1] == y;
  }

  /** Removing a common last record preserves agreement on an id. */
  lemma DropLast(a: seq<DataRecord>, b: seq<DataRecord>, j: int)
    requires |a| > 0 && |b| > 0 && a[|a| - 1] == b[|b| - 1]
    requires WithId(a, j) == WithId(b, j)
    ensures WithId(a[..|a| - 1], j) == WithId(b[..|b| - 1], j)
  {
    var x := a[|a| - 1];
    var wa, wb := WithId(a[..|a| - 1], j), WithId(b[..|b| - 1], j);
    if x.eventId == j {
      assert WithId(a, j) == wa + [x];
      assert WithId(b, j) == wb + [x];
      SnocCancel(wa, wb, x);
    } else {
      assert WithId(a, j) == wa;
      assert WithId(b, j) == wb;
    }
  }

  lemma SnocCancel(u: seq<DataRecord>, v: seq<DataRecord>, x: DataRecord)
    requires u + [x] == v + [x]
    ensures u == v
  {
    assert u == (u + [x])[..|u|];
    assert v == (v + [x])[..|v|];
  }

  /** A sorted, stable rearrangement is unique. Hence any stable sort (the
      library's merge sort included) yields exactly `SortById`. */
  lemma {:induction false} StableSortIsUnique(a: seq<DataRecord>, b: seq<DataRecord>)
    requires Sorted(a) && Sorted(b)
    requires forall k :: WithId(a, k) == WithId(b, k)
    ensures a == b
    decreases |a|
  {
    if |a| == 0 || |b| == 0 {
      NonEmptyHasId(a);
      NonEmptyHasId(b);
    } else {
      LastsAgree(a, b);
      var a', b' := a[..|a| - 1], b[..|b| - 1];
      SortedPrefix(a);
      SortedPrefix(b);
      forall j ensures WithId(a', j) == WithId(b', j) {
        DropLast(a, b, j);
      }
      StableSortIsUnique(a', b');
      assert a == a' + [a[|a| - 1]] && b == b' + [b[|b| - 1]];
    }
  }

  /** What the source's `List.sort` call leaves in the list: any sorted
      arrangement that keeps equal ids in input order is `SortById(s)`. */
  lemma ListSortIsSortById(s: seq<DataRecord>, t: seq<DataRecord>)
    requires Sorted(t)
    requires forall k :: WithId(t, k) == WithId(s, k)
    ensures t == SortById(s)
  {
    forall k ensures WithId(t, k) == WithId(SortById(s), k) {
      SortByIdStable(s, k);
    }
    StableSortIsUnique(t, SortById(s));
  }
}
