/** `allocate_projects`: the whole matching loop and its result. */
module Allocate {
  import opened Seqs
  import opened Model
  import opened Seating
  import opened Occupancy
  import opened Engine
  import opened Finish
  import Capacity

  /** Why the source raises before returning anything: with no projects the
      capacity computation divides by zero. */
  datatype Error = ZeroDivision

  datatype Result<T> = Ok(value: T) | Err(error: Error)

  /** The three values `allocate_projects` returns. */
  datatype Output = Output(assignment: map<Project, Row>, leftover: seq<Student>, leftoverPrefs: Preferences)

  /** Runs the matching loop until every student is placed or the cursor runs
      past the pool, then pads every project to the capacity. Returns the
      padded assignment, the students left in the pool, and their preference
      lists; with no projects at all, fails with a division by zero.

      The assignment has one column per project, each exactly `capacity` long
      with placeholders only after the allocations, and every stored rank is
      the position of the project in the student's list plus one. The placed
      and the leftover students split the input: nobody is placed twice, left
      over twice, or both. Each leftover student was turned away by every
      project on their list. When every list names every project, nobody is
      left over. The result is the one the loop computes: the padded table,
      pool and leftover map of `Run` from the initial state. */
  method AllocateProjects(students: seq<Student>, projects: seq<Project>, prefs: Preferences)
    returns (r: Result<Output>)
    requires |projects| == 0 || WellFormed(Problem(students, projects, prefs))
    ensures r.Err? <==> |projects| == 0
    ensures r.Ok? ==> Padded(r.value.assignment, projects, Capacity.Ceiling(|students|, |projects|))
    ensures r.Ok? ==> RanksRight(r.value.assignment, prefs)
    ensures r.Ok? ==> Splits(students, Placed(r.value.assignment, projects), r.value.leftover)
    ensures r.Ok? ==> RestrictedTo(r.value.leftoverPrefs, prefs, r.value.leftover)
    ensures r.Ok? ==> LeftoversRefused(r.value.assignment, prefs, r.value.leftover)
    ensures r.Ok? && Complete(Problem(students, projects, prefs)) ==> r.value.leftover == []
    ensures r.Ok? ==>
              var pr := Problem(students, projects, prefs);
              var st := Run(pr, Init(pr));
              r.value == Output(PadAll(st.table, Cap(pr)), st.pool, Leftovers(prefs, st.pool))
  {
    if |projects| == 0 {
      return Err(ZeroDivision);
    }
    var pr := Problem(students, projects, prefs);
    var st := Match(pr);
    Finished(pr, st);
    r := Ok(Output(PadAll(st.table, Cap(pr)), st.pool, Leftovers(prefs, st.pool)));
  }

  /** The padded table, the pool and the restricted preferences of a final
      state have the promised shape. */
  lemma Finished(pr: Problem, st: State)
    requires Consistent(pr, st)
    requires forall s :: s in st.pool ==> Stuck(pr, st.table, s)
    ensures forall s :: s in st.pool ==> s in pr.prefs
    ensures var asg := PadAll(st.table, Cap(pr));
            && Padded(asg, pr.projects, Cap(pr))
            && RanksRight(asg, pr.prefs)
            && Splits(pr.students, Placed(asg, pr.projects), st.pool)
            && RestrictedTo(Leftovers(pr.prefs, st.pool), pr.prefs, st.pool)
            && LeftoversRefused(asg, pr.prefs, st.pool)
  {
    var cap := Cap(pr);
    var asg := PadAll(st.table, cap);
    HeadCount(pr, st);
    forall s | s in st.pool ensures s in pr.prefs {
      PoolMember(pr, st, s);
    }
    PlacedOfPadAll(st.table, cap, pr.projects);
    assert multiset(Placed(asg, pr.projects)) == multiset(st.placed);
    PartsOfDistinct(st.pool, Placed(asg, pr.projects), pr.students);
    forall q | q in asg ensures |asg[q]| == cap {
      assert |st.table[q]| <= cap;
    }
    forall q, i | q in asg && 0 <= i < |asg[q]| && asg[q][i].Some?
      ensures RankOk(pr.prefs, q, asg[q][i].value)
    {
      assert i < |st.table[q]| && asg[q][i].value == st.table[q][i];
    }
    forall s, j, i |
      s in st.pool && s in pr.prefs && 0 <= j < |pr.prefs[s]| && pr.prefs[s][j] in asg
      && 0 <= i < |asg[pr.prefs[s][j]]|
      ensures asg[pr.prefs[s][j]][i].Some? && asg[pr.prefs[s][j]][i].value.rank <= j + 1
    {
      var q := pr.prefs[s][j];
      assert !Admits(st.table, cap, q, j + 1);
      assert |st.table[q]| == cap;
      assert asg[q][i] == Some(st.table[q][i]);
    }
  }

  /** The `while` loop: repeatedly scan the student under the cursor until
      everyone is placed or the cursor runs past the pool. On exit the
      invariant still holds and the cursor is at or past the pool's end; when
      every list names every project, the pool is empty. */
  method Match(pr: Problem) returns (st: State)
    requires WellFormed(pr)
    ensures Consistent(pr, st)
    ensures st.index >= |st.pool|
    ensures Complete(pr) ==> st.pool == []
    ensures st == Run(pr, Init(pr))
  {
    st := Init(pr);
    while |st.placed| < |pr.students|
      invariant Consistent(pr, st)
      invariant st.index < |st.pool| || st.pool == []
      invariant Passed(pr, st)
      invariant Complete(pr) ==> st.index == 0
      invariant Run(pr, st) == Run(pr, Init(pr))
      decreases |st.pool|, RankTotal(st.table, pr.projects), |st.pool| - st.index
    {
      HeadCount(pr, st);
      if Complete(pr) {
        CompleteListsNeverStall(pr, st);
      }
      StepKeepsConsistent(pr, st);
      StepKeepsPassed(pr, st);
      st := Step(pr, st);
      if st.index >= |st.pool| {
        break;
      }
    }
    HeadCount(pr, st);
  }
}
