/** Worked examples of the reduction on concrete event lists. */
module Scenarios {
  import opened Wrappers
  import opened Records
  import opened Ordering
  import opened LatestState
  import opened Aggregate

  const A1: DataRecord := DataRecord(1, Person("A", Some(10)))
  const A2: DataRecord := DataRecord(2, Person("A", Some(20)))
  const B1: DataRecord := DataRecord(1, Person("B", Some(5)))
  const A5: DataRecord := DataRecord(5, Person("A", Some(1)))
  const A2Late: DataRecord := DataRecord(2, Person("A", Some(99)))

  /** Two salaries for A and one for B: A keeps its later salary, and the
      average is (20 + 5) / 2. */
  lemma TwoNamesExample()
    ensures GroupSalaries(SortById([A1, A2, B1])) == map["A" := Some(20), "B" := Some(5)]
    ensures Summarize(map["A" := Some(20), "B" := Some(5)], ["A", "B"]) == Some(Mean(25, 2))
  {
    TwoNamesSorted();
    TwoNamesTable();
    TwoNamesAverage();
  }

  lemma TwoNamesSorted()
    ensures SortById([A1, A2, B1]) == [A1, B1, A2]
  {
    assert [A1, A2, B1][..2] == [A1, A2] && [A1, A2][..1] == [A1] && [A1][..0] == [];
    assert SortById([A1]) == [A1];
    assert Insert([A1], A2) == [A1, A2];
    assert SortById([A1, A2]) == [A1, A2];
    assert Insert([A1], B1) == [A1, B1];
    assert Insert([A1, A2], B1) == Insert([A1], B1) + [A2];
  }

  lemma TwoNamesTable()
    ensures GroupSalaries([A1, B1, A2]) == map["A" := Some(20), "B" := Some(5)]
  {
    assert [A1, B1, A2][..2] == [A1, B1] && [A1, B1][..1] == [A1] && [A1][..0] == [];
    var m0: Table := map[];
    assert GroupSalaries([A1][..0]) == m0;
    var m1 := GroupSalaries([A1]);
    assert m1 == Absorb(m0, A1);
    var m2 := GroupSalaries([A1, B1]);
    assert m2 == Absorb(m1, B1);
    assert GroupSalaries([A1, B1, A2]) == Absorb(m2, A2);
  }

  lemma TwoNamesAverage()
    ensures Summarize(map["A" := Some(20), "B" := Some(5)], ["A", "B"]) == Some(Mean(25, 2))
  {
    var m := map["A" := Some(20), "B" := Some(5)];
    assert ["A", "B"][..1] == ["A"];
    assert PresentValues(m, ["A", "B"]) == [20, 5];
    assert [20, 5][..1] == [20] && [20][..0] == [];
    assert Sum([20, 5]) == 25;
  }

  /** A later event id wins even when it arrives first. */
  lemma OutOfOrderExample()
    ensures GroupSalaries(SortById([A5, A2Late])) == map["A" := Some(1)]
  {
    assert [A5, A2Late][..1] == [A5] && [A5][..0] == [];
    assert SortById([A5]) == [A5];
    assert Insert([A5][..0], A2Late) == [A2Late];
    assert SortById([A5, A2Late]) == [A2Late, A5];
    assert [A2Late, A5][..1] == [A2Late] && [A2Late][..0] == [];
    var m0: Table := map[];
    assert GroupSalaries([A2Late][..0]) == m0;
    assert GroupSalaries([A2Late]) == Absorb(m0, A2Late);
  }
}
