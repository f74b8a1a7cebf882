/** The group-and-reduce step of `JsonReader.main`: after sorting, records
    without a salary are dropped, the rest are grouped by name, and each
    group is reduced with `(s1, s2) -> s2`. The result maps a name to an
    `Optional<Integer>`, rendered here as `Option<Int32>`. */
module LatestState {
  import opened Wrappers
  import opened Records
  import opened Ordering

  /** Name to reduced salary, as `Map<String, Optional<Integer>>`. */
  type Table = map<string, Option<Int32>>

  /** The reducer `(s1, s2) -> s2`: the later salary replaces the earlier. */
  function KeepLater(s1: Int32, s2: Int32): Int32 {
    s2
  }

  /** One accumulation step of `Collectors.reducing(op)`: an empty box takes
      the value, a full one combines its content with it. */
  function Reducing(box: Option<Int32>, v: Int32): Option<Int32> {
    match box
    case None => Some(v)
    case Some(s1) => Some(KeepLater(s1, v))
  }

  /** The entry for `name`, or `None` when the map has no such key. */
  function Lookup(m: Table, name: string): Option<Int32> {
    if name in m then m[name] else None
  }

  /** One record through `filter(salary != null)` and into its group. */
  function Absorb(m: Table, r: DataRecord): Table {
    match r.data.salary
    case None => m
    case Some(v) => m[r.data.name := Reducing(Lookup(m, r.data.name), v)]
  }

  /** The whole collector as a left fold over the (sorted) records. Every
      group is non-empty, so every reduced `Optional` is present. */
  function GroupSalaries(recs: seq<DataRecord>): (m: Table)
    ensures forall name :: name in m ==> m[name].Some?
  {
    if |recs| == 0 then map[]
    else Absorb(GroupSalaries(recs[..|recs| - 1]), recs[|recs| - 1])
  }

  /** Position `i` holds the last record that gives `name` a salary. */
  predicate IsLastSalaried(recs: seq<DataRecord>, name: string, i: int) {
    0 <= i < |recs| && Salaried(recs[i], name) && forall j :: i < j < |recs| ==> !Salaried(recs[j], name)
  }

  /** Reference definition: the salary of the last record that names
      `name` and carries a salary. */
  function LastSalary(recs: seq<DataRecord>, name: string): (r: Option<Int32>)
    ensures r.None? <==> forall i :: 0 <= i < |recs| ==> !Salaried(recs[i], name)
  {
    if |recs| == 0 then None
    else if Salaried(recs[|recs| - 1], name) then recs[|recs| - 1].data.salary
    else LastSalary(recs[..|recs| - 1], name)
  }

  /** A present `LastSalary` is the salary of the last salaried record for
      `name`. */
  lemma {:induction false} LastSalaryIsLast(recs: seq<DataRecord>, name: string)
    requires LastSalary(recs, name).Some?
    ensures exists i :: IsLastSalaried(recs, name, i) && recs[i].data.salary == LastSalary(recs, name)
    decreases |recs|
  {
    var p, x := recs[..|recs| - 1], recs[|recs| - 1];
    if Salaried(x, name) {
      assert IsLastSalaried(recs, name, |recs| - 1);
    } else {
      LastSalaryIsLast(p, name);
      var i :| IsLastSalaried(p, name, i) && p[i].data.salary == LastSalary(p, name);
      assert recs[i] == p[i];
      assert IsLastSalaried(recs, name, i);
    }
  }

  /** `LastSalary` of a sequence extended by one record. */
  lemma LastSalarySnoc(s: seq<DataRecord>, x: DataRecord, name: string)
    ensures LastSalary(s + [x], name) == if Salaried(x, name) then x.data.salary else LastSalary(s, name)
  {
    assert (s + [x])[..|s|] == s;
  }

  /** The fold keeps, for each name, the salary of the last record that
      has one; a name is a key exactly when some record gives it a salary. */
  lemma {:induction false} GroupSalariesIsLastSalary(recs: seq<DataRecord>, name: string)
    ensures Lookup(GroupSalaries(recs), name) == LastSalary(recs, name)
    ensures name in GroupSalaries(recs) <==> exists i :: 0 <= i < |recs| && Salaried(recs[i], name)
    decreases |recs|
  {
    if |recs| > 0 {
      GroupSalariesIsLastSalary(recs[..|recs| - 1], name);
    }
  }

  /** A record without a salary neither creates nor overwrites an entry,
      wherever it sits in the sequence. */
  lemma {:induction false} NullSalaryNeverWrites(a: seq<DataRecord>, r: DataRecord, b: seq<DataRecord>)
    requires r.data.salary.None?
    ensures GroupSalaries(a + [r] + b) == GroupSalaries(a + b)
    decreases |b|
  {
    if |b| == 0 {
      assert a + [r] + b == a + [r] && (a + [r])[..|a|] == a;
      assert a + b == a;
    } else {
      var b', y := b[..|b| - 1], b[|b| - 1];
      assert (a + [r] + b)[..|a + [r] + b| - 1] == a + [r] + b';
      assert (a + b)[..|a + b| - 1] == a + b';
      NullSalaryNeverWrites(a, r, b');
    }
  }

  /** Index `w` of `recs` holds the record that should win for `name`: it
      has a salary for `name`, and every other such record has a smaller
      event id, or the same id and an earlier position. */
  predicate Beats(recs: seq<DataRecord>, name: string, w: nat) {
    && w < |recs|
    && Salaried(recs[w], name)
    && forall j :: 0 <= j < |recs| && Salaried(recs[j], name) ==>
         recs[j].eventId < recs[w].eventId || (recs[j].eventId == recs[w].eventId && j <= w)
  }

  /** Reference definition, independent of sorting: a running maximum over
      the input by (event id, position). */
  function Winner(recs: seq<DataRecord>, name: string): (w: Option<nat>)
    ensures w.None? <==> forall i :: 0 <= i < |recs| ==> !Salaried(recs[i], name)
    ensures w.Some? ==> Beats(recs, name, w.value)
  {
    if |recs| == 0 then None
    else
      var last := |recs| - 1;
      var prefix := recs[..last];
      var w := Winner(prefix, name);
      assert forall i :: 0 <= i < last ==> prefix[i] == recs[i];
      if Salaried(recs[last], name) && (w.None? || recs[w.value].eventId <= recs[last].eventId) then Some(last)
      else w
  }

  /** In a sorted sequence whose salaried records for `name` reach at most
      id `k`, and reach it, the last salary for `name` is found among the
      records with id `k`. */
  lemma {:induction false} LastSalaryInSorted(t: seq<DataRecord>, name: string, k: int, z: nat)
    requires Sorted(t)
    requires forall i :: 0 <= i < |t| && Salaried(t[i], name) ==> t[i].eventId <= k
    requires z < |t| && Salaried(t[z], name) && t[z].eventId == k
    ensures LastSalary(t, name) == LastSalary(WithId(t, k), name)
    decreases |t|
  {
    var p, x := t[..|t| - 1], t[|t| - 1];
    assert t == p + [x];
    assert forall i :: 0 <= i < |p| ==> p[i] == t[i];
    WithIdSnoc(p, x, k);
    LastSalarySnoc(p, x, name);
    if x.eventId < k {
      assert false;
    } else if x.eventId > k {
      assert !Salaried(t[|t| - 1], name);
      assert z < |p| && p[z] == t[z];
      LastSalaryInSorted(p, name, k, z);
      assert LastSalary(t, name) == LastSalary(p, name);
      assert WithId(t, k) == WithId(p, k);
    } else {
      LastSalarySnoc(WithId(p, k), x, name);
      if !Salaried(x, name) {
        assert z < |p| && p[z] == t[z];
        LastSalaryInSorted(p, name, k, z);
      }
    }
  }

  /** Among the records with the winner's id, in input order, the winner is
      the last one with a salary for `name`. */
  lemma {:induction false} LastSalaryOfWinner(s: seq<DataRecord>, name: string, i: nat)
    requires i < |s| && Salaried(s[i], name)
    requires forall j :: i < j < |s| && Salaried(s[j], name) ==> s[j].eventId != s[i].eventId
    ensures LastSalary(WithId(s, s[i].eventId), name) == s[i].data.salary
    decreases |s|
  {
    var k := s[i].eventId;
    var p, x := s[..|s| - 1], s[|s| - 1];
    assert s == p + [x];
    WithIdSnoc(p, x, k);
    if i == |s| - 1 {
      LastSalarySnoc(WithId(p, k), x, name);
    } else {
      assert forall j :: 0 <= j < |p| ==> p[j] == s[j];
      assert p[i] == s[i];
      LastSalaryOfWinner(p, name, i);
      assert LastSalary(WithId(p, k), name) == s[i].data.salary;
      if x.eventId == k {
        assert !Salaried(s[|s| - 1], name);
        LastSalarySnoc(WithId(p, k), x, name);
      } else {
        assert WithId(s, k) == WithId(p, k);
      }
    }
  }

  /** `t` is what a stable sort by event id makes of `recs`: sorted, a
      rearrangement, and every id's records in input order. */
  ghost predicate IsStableSortOf(t: seq<DataRecord>, recs: seq<DataRecord>) {
    && Sorted(t)
    && multiset(t) == multiset(recs)
    && forall k :: WithId(t, k) == WithId(recs, k)
  }

  /** Last-write-wins for any stable sort: folding the sorted records gives
      each name the salary of its winning record in the input — highest
      event id, ties to the later line — whatever order the records arrived
      in. A name without any salaried record has no entry. */
  lemma LastWriteWinsAfterStableSort(recs: seq<DataRecord>, t: seq<DataRecord>, name: string)
    requires IsStableSortOf(t, recs)
    ensures var w := Winner(recs, name);
      Lookup(GroupSalaries(t), name) == if w.None? then None else recs[w.value].data.salary
  {
    GroupSalariesIsLastSalary(t, name);
    var w := Winner(recs, name);
    if w.None? {
      forall i | 0 <= i < |t| ensures !Salaried(t[i], name) {
        var j := FromInput(recs, t, i);
      }
    } else {
      var k := recs[w.value].eventId;
      forall i | 0 <= i < |t| && Salaried(t[i], name) ensures t[i].eventId <= k {
        var j := FromInput(recs, t, i);
      }
      assert recs[w.value] in multiset(t);
      var z :| 0 <= z < |t| && t[z] == recs[w.value];
      LastSalaryInSorted(t, name, k, z);
      LastSalaryOfWinner(recs, name, w.value);
    }
  }

  /** Each record of a rearrangement stands somewhere in the input. */
  lemma FromInput(recs: seq<DataRecord>, t: seq<DataRecord>, i: nat) returns (j: nat)
    requires multiset(t) == multiset(recs) && i < |t|
    ensures j < |recs| && recs[j] == t[i]
  {
    assert t[i] in multiset(recs);
    j :| j < |recs| && recs[j] == t[i];
  }

  /** Last-write-wins for the model's own sort. */
  lemma LastWriteWins(recs: seq<DataRecord>, name: string)
    ensures var w := Winner(recs, name);
      Lookup(GroupSalaries(SortById(recs)), name) == if w.None? then None else recs[w.value].data.salary
  {
    forall k ensures WithId(SortById(recs), k) == WithId(recs, k) {
      SortByIdStable(recs, k);
    }
    LastWriteWinsAfterStableSort(recs, SortById(recs), name);
  }
}
