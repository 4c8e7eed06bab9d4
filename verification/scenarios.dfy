/** Small inputs worked through the loop model by proof. */
module Scenarios {
  import opened Seqs
  import opened Model
  import opened Seating
  import opened Engine

  /** Two students, two projects, and both lists name only the first project. */
  function EqualLists(): Problem {
    Problem(["S1", "S2"], ["P1", "P2"], map["S1" := ["P1"], "S2" := ["P1"]])
  }

  /** The lists have equal length, yet the second student is left over: the
      capacity is one, the first student takes the seat at rank 1, and the
      second, also at rank 1, cannot displace them. */
  lemma EqualLengthListsCanLeaveStudents()
    ensures WellFormed(EqualLists()) && Run(EqualLists(), Init(EqualLists())).pool == ["S2"]
  {
    var pr := EqualLists();
    assert WellFormed(pr);
    var st1 := FirstStudentSeated();
    SecondStudentStuck(st1);
    assert Run(pr, Init(pr)) == Run(pr, st1);
  }

  /** The first iteration: S1 takes the empty P1 at rank 1. */
  lemma FirstStudentSeated() returns (st1: State)
    ensures WellFormed(EqualLists())
    ensures st1 == Step(EqualLists(), Init(EqualLists())) && Ready(EqualLists(), st1)
    ensures st1.pool == ["S2"] && st1.placed == ["S1"] && st1.index == 0
    ensures st1.table["P1"] == [Allocation("S1", 1)]
  {
    var pr := EqualLists();
    assert WellFormed(pr);
    assert Cap(pr) == 1;
    var st0 := Init(pr);
    assert st0.table["P1"] == [];
    assert Candidate(pr, st0) == ("S1", Free("P1", 1));
    StepPlaces(pr, st0);
    StepKeepsConsistent(pr, st0);
    st1 := Step(pr, st0);
  }

  /** The second iteration: P1 is full and its only occupant stored rank 1,
      so S2's scan finds nothing and the cursor moves past the pool. */
  lemma SecondStudentStuck(st1: State)
    requires WellFormed(EqualLists()) && Ready(EqualLists(), st1)
    requires st1.pool == ["S2"] && st1.placed == ["S1"] && st1.index == 0
    requires st1.table["P1"] == [Allocation("S1", 1)]
    ensures Step(EqualLists(), st1) == st1.(index := 1)
  {
    var pr := EqualLists();
    assert Cap(pr) == 1;
    assert FirstWorse(st1.table["P1"], 1) == None;
    assert Candidate(pr, st1) == ("S2", NoSeat);
  }
}
