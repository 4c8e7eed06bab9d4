/** One iteration of the `while` loop of `allocate_projects`, the invariant it
    keeps, and the lexicographic measure it decreases. */
module Engine {
  import opened Seqs
  import opened Model
  import opened Seating
  import opened Occupancy

  /** The loop variables: the work pool (`students`, mutated in place in the
      source), the per-project lists, `allocated_students`, and the cursor. */
  datatype State = State(pool: seq<Student>, table: Table, placed: seq<Student>, index: nat)

  /** The shape of the table: exactly the projects as keys, no list longer
      than the capacity, and every stored rank equal to the position of that
      project in the student's preference list plus one. */
  ghost predicate TableOk(pr: Problem, t: Table)
    requires |pr.projects| > 0
  {
    && (forall q :: q in t <==> q in pr.projects)
    && (forall q :: q in t ==> |t[q]| <= Cap(pr))
    && (forall q, a :: q in t && a in t[q] ==> RankOk(pr.prefs, q, a))
  }

  /** No student is lost or invented: the pool and the allocated students
      together are the input students, and the students held in the table are
      exactly the allocated ones. */
  ghost predicate Conserved(pr: Problem, st: State)
    requires forall q :: q in pr.projects ==> q in st.table
  {
    && multiset(st.pool) + multiset(st.placed) == multiset(pr.students)
    && Roster(st.table, pr.projects) == multiset(st.placed)
  }

  /** What holds at the top of every iteration, the cursor aside. */
  ghost predicate Consistent(pr: Problem, st: State) {
    WellFormed(pr) && TableOk(pr, st.table) && Conserved(pr, st)
  }

  /** Replacing one project's list by a list within the capacity whose stored
      ranks are right keeps the table's shape. */
  lemma ReplaceList(pr: Problem, t: Table, p: Project, l: seq<Allocation>)
    requires |pr.projects| > 0 && TableOk(pr, t) && p in t
    requires |l| <= Cap(pr)
    requires forall a :: a in l ==> RankOk(pr.prefs, p, a)
    ensures TableOk(pr, t[p := l])
  {
  }

  /** The cursor points into the pool, so `students[index]` is defined. */
  ghost predicate Ready(pr: Problem, st: State) {
    Consistent(pr, st) && st.index < |st.pool|
  }

  /** The state before the first iteration: every student in the pool, every
      project with an empty list, nobody allocated, the cursor at 0. It already
      satisfies the invariant. */
  function Init(pr: Problem): (st: State)
    requires WellFormed(pr)
    ensures Consistent(pr, st)
    ensures st.pool == pr.students && st.placed == [] && st.index == 0
    ensures Passed(pr, st)
  {
    var t := map q | q in pr.projects :: [];
    EmptyRoster(t, pr.projects);
    State(pr.students, t, [], 0)
  }

  lemma {:induction false} EmptyRoster(t: Table, ps: seq<Project>)
    requires forall q :: q in ps ==> q in t && t[q] == []
    ensures Roster(t, ps) == multiset{}
  {
    if ps != [] {
      EmptyRoster(t, ps[1..]);
    }
  }

  /** The pool and the allocated students together have as many members as the
      input. */
  lemma HeadCount(pr: Problem, st: State)
    requires Consistent(pr, st)
    ensures |st.pool| + |st.placed| == |pr.students|
    ensures |Roster(st.table, pr.projects)| == |st.placed|
  {
    assert |multiset(st.pool) + multiset(st.placed)| == |multiset(pr.students)|;
  }

  /** The pool and the allocated students are distinct and disjoint. */
  lemma NoneTwice(pr: Problem, st: State)
    requires Consistent(pr, st)
    ensures Distinct(st.pool) && Distinct(st.placed)
    ensures forall s :: s in st.pool ==> s !in st.placed
  {
    PartsOfDistinct(st.pool, st.placed, pr.students);
  }

  /** A pool member is an input student, so its preference lookup succeeds and
      names only projects of the table. */
  lemma PoolMember(pr: Problem, st: State, s: Student)
    requires Consistent(pr, st) && s in st.pool
    ensures s in pr.students && s in pr.prefs
    ensures forall q :: q in pr.prefs[s] ==> q in st.table
  {
    assert multiset(st.pool)[s] > 0;
    assert multiset(pr.students)[s] > 0;
  }

  /** Whoever is stored in the table is among the allocated students, so the
      source's `allocated_students.remove` succeeds. */
  lemma SeatedIsAllocated(pr: Problem, st: State, p: Project, k: nat)
    requires Consistent(pr, st) && p in st.table && k < |st.table[p]|
    ensures st.table[p][k].student in st.placed
  {
    SeatedIsRostered(st.table, pr.projects, p, k);
    assert st.table[p][k].student in multiset(st.placed);
  }

  /** The student under the cursor and the result of scanning their list. */
  function Candidate(pr: Problem, st: State): (r: (Student, Outcome))
    requires Ready(pr, st)
    ensures r.0 == st.pool[st.index] && r.0 in pr.students && r.0 in pr.prefs
    ensures forall q :: q in pr.prefs[r.0] ==> q in st.table
  {
    var s := st.pool[st.index];
    PoolMember(pr, st, s);
    (s, Scan(st.table, Cap(pr), pr.prefs[s]))
  }

  /** One pass of the loop body (the source's lines taking `students[index]`
      through the `for ... else` that advances the cursor). */
  function Step(pr: Problem, st: State): (r: State)
    requires Ready(pr, st)
    ensures r.table.Keys == st.table.Keys
    ensures r.index == st.index + 1 <==> Candidate(pr, st).1.NoSeat?
    ensures !Candidate(pr, st).1.NoSeat? ==> r.index == st.index
    ensures Candidate(pr, st).1.Free? ==> |r.pool| + 1 == |st.pool| && r.placed == st.placed + [Candidate(pr, st).0]
    ensures Candidate(pr, st).1.Bump? ==> |r.pool| == |st.pool| && |r.placed| == |st.placed|
    ensures Candidate(pr, st).1.NoSeat? ==> r.pool == st.pool && r.placed == st.placed && r.table == st.table
  {
    var (s, outcome) := Candidate(pr, st);
    match outcome
    case Free(p, r) =>
      State(RemoveFirst(st.pool, s),
            st.table[p := st.table[p] + [Allocation(s, r)]],
            st.placed + [s],
            st.index)
    case Bump(p, r, k) =>
      var evicted := st.table[p][k];
      SeatedIsAllocated(pr, st, p, k);
      State(RemoveFirst(st.pool, s) + [evicted.student],
            st.table[p := RemoveFirst(st.table[p], evicted) + [Allocation(s, r)]],
            RemoveFirst(st.placed + [s], evicted.student),
            st.index)
    case NoSeat =>
      st.(index := st.index + 1)
  }

  /** A free seat: the candidate is appended to the project at the rank found,
      leaves the pool at the cursor's position and joins the allocated
      students; no other project changes and the cursor stays. */
  lemma StepPlaces(pr: Problem, st: State)
    requires Ready(pr, st) && Candidate(pr, st).1.Free?
    ensures var (s, o) := Candidate(pr, st);
            var st' := Step(pr, st);
            && |st.table[o.project]| < Cap(pr)
            && pr.prefs[s][o.rank - 1] == o.project
            && st'.table.Keys == st.table.Keys
            && st'.table[o.project] == st.table[o.project] + [Allocation(s, o.rank)]
            && (forall q :: q in st.table && q != o.project ==> st'.table[q] == st.table[q])
            && st'.pool == st.pool[..st.index] + st.pool[st.index + 1..]
            && st'.placed == st.placed + [s]
            && st'.index == st.index
  {
    NoneTwice(pr, st);
    RemoveFirstAt(st.pool, st.index);
  }

  /** A displacement happens only on a project that is exactly full. It evicts
      the first occupant, in insertion order, whose stored rank is larger than
      the candidate's, keeps the list's length, appends the candidate last,
      puts the evicted student at the end of the pool, and changes no other
      project. */
  lemma StepDisplaces(pr: Problem, st: State)
    requires Ready(pr, st) && Candidate(pr, st).1.Bump?
    ensures var (s, o) := Candidate(pr, st);
            var before := st.table[o.project];
            var st' := Step(pr, st);
            && |before| == Cap(pr) && o.victim < |before|
            && pr.prefs[s][o.rank - 1] == o.project
            && before[o.victim].rank > o.rank
            && (forall j :: 0 <= j < o.victim ==> before[j].rank <= o.rank)
            && st'.table.Keys == st.table.Keys
            && st'.table[o.project] == before[..o.victim] + before[o.victim + 1..] + [Allocation(s, o.rank)]
            && |st'.table[o.project]| == |before|
            && (forall q :: q in st.table && q != o.project ==> st'.table[q] == st.table[q])
            && st'.pool == st.pool[..st.index] + st.pool[st.index + 1..] + [before[o.victim].student]
            && st'.index == st.index
  {
    var s: Student, o: Outcome := Candidate(pr, st).0, Candidate(pr, st).1;
    var before := st.table[o.project];
    NoneTwice(pr, st);
    RemoveFirstAt(st.pool, st.index);
    forall j | 0 <= j < o.victim ensures before[j] != before[o.victim] {
      assert before[j].rank <= o.rank < before[o.victim].rank;
    }
    RemoveFirstAt(before, o.victim);
  }

  /** No project on the candidate's list admits them: only the cursor moves. */
  lemma StepAdvances(pr: Problem, st: State)
    requires Ready(pr, st) && Candidate(pr, st).1.NoSeat?
    ensures var (s, o) := Candidate(pr, st);
            forall j :: 0 <= j < |pr.prefs[s]| ==> !Admits(st.table, Cap(pr), pr.prefs[s][j], j + 1)
    ensures Step(pr, st) == st.(index := st.index + 1)
  {
  }

  /** A free-seat placement keeps the invariant and shrinks the pool. */
  lemma PlaceKeepsConsistent(pr: Problem, st: State)
    requires Ready(pr, st) && Candidate(pr, st).1.Free?
    ensures Consistent(pr, Step(pr, st))
    ensures |Step(pr, st).pool| < |st.pool|
  {
    var s: Student, o: Outcome := Candidate(pr, st).0, Candidate(pr, st).1;
    var p, r := o.project, o.rank;
    var t: Table := st.table;
    var l := t[p] + [Allocation(s, r)];
    var st' := Step(pr, st);
    assert st' == State(RemoveFirst(st.pool, s), t[p := l], st.placed + [s], st.index);
    assert RankOk(pr.prefs, p, Allocation(s, r));
    ReplaceList(pr, t, p, l);
    PlaceConserves(pr, st, s, p, r);
  }

  /** The bookkeeping of a free-seat placement: the candidate leaves the pool
      and joins the allocated students. */
  lemma PlaceConserves(pr: Problem, st: State, s: Student, p: Project, r: nat)
    requires Consistent(pr, st) && s in st.pool && p in st.table
    ensures var l := st.table[p] + [Allocation(s, r)];
            Conserved(pr, State(RemoveFirst(st.pool, s), st.table[p := l], st.placed + [s], st.index))
  {
    var t := st.table;
    var l := t[p] + [Allocation(s, r)];
    AppendEntry(t[p], Allocation(s, r));
    RosterUpdate(t, pr.projects, p, l);
    var roster' := Roster(t[p := l], pr.projects);
    var mp := multiset(Names(t[p]));
    assert Roster(t, pr.projects) == multiset(st.placed);
    assert multiset(Names(l)) == mp + multiset{s};
    assert roster' + mp == (multiset(st.placed) + multiset{s}) + mp;
    MultisetCancel(roster', multiset(st.placed) + multiset{s}, mp);
    assert roster' == multiset(st.placed + [s]);
    assert multiset(RemoveFirst(st.pool, s)) + multiset{s} == multiset(st.pool);
  }

  /** A displacement keeps the invariant, keeps the pool's length and strictly
      lowers the total of the stored ranks. */
  lemma DisplaceKeepsConsistent(pr: Problem, st: State)
    requires Ready(pr, st) && Candidate(pr, st).1.Bump?
    ensures Consistent(pr, Step(pr, st))
    ensures |Step(pr, st).pool| == |st.pool|
    ensures RankTotal(Step(pr, st).table, pr.projects) < RankTotal(st.table, pr.projects)
  {
    var s: Student, o: Outcome := Candidate(pr, st).0, Candidate(pr, st).1;
    var p, r, k := o.project, o.rank, o.victim;
    var t: Table := st.table;
    var evicted: Allocation := t[p][k];
    var v := evicted.student;
    SeatedIsAllocated(pr, st, p, k);
    var kept := RemoveFirst(t[p], evicted);
    var l := kept + [Allocation(s, r)];
    var st' := Step(pr, st);
    assert st' == State(RemoveFirst(st.pool, s) + [v], t[p := l], RemoveFirst(st.placed + [s], v), st.index);
    assert RankOk(pr.prefs, p, Allocation(s, r));
    assert forall a :: a in kept ==> a in t[p];
    ReplaceList(pr, t, p, l);
    DisplaceConserves(pr, st, s, p, evicted, r);
    RemoveEntry(t[p], evicted);
    AppendEntry(kept, Allocation(s, r));
    RankTotalUpdate(t, pr.projects, p, l);
  }

  /** The bookkeeping of a displacement: the candidate leaves the pool and
      joins the allocated students, the evicted student does the opposite. */
  lemma DisplaceConserves(pr: Problem, st: State, s: Student, p: Project, evicted: Allocation, r: nat)
    requires Consistent(pr, st) && s in st.pool && p in st.table
    requires evicted in st.table[p] && evicted.student in st.placed
    ensures var l := RemoveFirst(st.table[p], evicted) + [Allocation(s, r)];
            Conserved(pr, State(RemoveFirst(st.pool, s) + [evicted.student],
                                st.table[p := l],
                                RemoveFirst(st.placed + [s], evicted.student),
                                st.index))
  {
    var t := st.table;
    var v := evicted.student;
    var kept := RemoveFirst(t[p], evicted);
    var l := kept + [Allocation(s, r)];
    var pool' := RemoveFirst(st.pool, s) + [v];
    var placed' := RemoveFirst(st.placed + [s], v);
    RemoveEntry(t[p], evicted);
    AppendEntry(kept, Allocation(s, r));
    RosterUpdate(t, pr.projects, p, l);
    var roster' := Roster(t[p := l], pr.projects);
    var mk := multiset(Names(kept));
    assert Roster(t, pr.projects) == multiset(st.placed);
    assert multiset(Names(l)) == mk + multiset{s};
    assert multiset(Names(t[p])) == mk + multiset{v};
    var mplaced := multiset(placed');
    assert mplaced + multiset{v} == multiset(st.placed) + multiset{s};
    SwapRoster(roster', multiset(st.placed), mplaced, mk, s, v);
    var rest := multiset(RemoveFirst(st.pool, s));
    assert rest + multiset{s} == multiset(st.pool);
    assert multiset(pool') == rest + multiset{v};
    SwapPool(rest, multiset(st.pool), multiset(pool'), multiset(st.placed), mplaced, multiset(pr.students), s, v);
  }

  /** Multiset bookkeeping of a displacement on the table side: the list lost
      `v` and gained `s`, and so did the allocated students. */
  lemma SwapRoster(roster': multiset<Student>, placed: multiset<Student>, placed': multiset<Student>,
                   kept: multiset<Student>, s: Student, v: Student)
    requires roster' + (kept + multiset{v}) == placed + (kept + multiset{s})
    requires placed' + multiset{v} == placed + multiset{s}
    ensures roster' == placed'
  {
    forall x ensures roster'[x] == placed'[x] {
      assert (roster' + (kept + multiset{v}))[x] == (placed + (kept + multiset{s}))[x];
      assert (placed' + multiset{v})[x] == (placed + multiset{s})[x];
    }
  }

  /** Multiset bookkeeping of a displacement on the pool side: `s` left the
      pool for the allocated students and `v` went the other way. */
  lemma SwapPool(rest: multiset<Student>, pool: multiset<Student>, pool': multiset<Student>,
                 placed: multiset<Student>, placed': multiset<Student>, students: multiset<Student>,
                 s: Student, v: Student)
    requires rest + multiset{s} == pool && pool' == rest + multiset{v}
    requires placed' + multiset{v} == placed + multiset{s}
    requires pool + placed == students
    ensures pool' + placed' == students
  {
    forall x ensures (pool' + placed')[x] == students[x] {
      assert (rest + multiset{s})[x] == pool[x];
      assert (placed' + multiset{v})[x] == (placed + multiset{s})[x];
      assert (pool + placed)[x] == students[x];
    }
  }

  /** Every iteration keeps the invariant and lowers the measure
      (pool size, total stored rank, distance of the cursor from the pool's end)
      in the lexicographic order. */
  lemma StepKeepsConsistent(pr: Problem, st: State)
    requires Ready(pr, st)
    ensures Consistent(pr, Step(pr, st))
    ensures var st' := Step(pr, st);
            || |st'.pool| < |st.pool|
            || (&& |st'.pool| == |st.pool|
                && RankTotal(st'.table, pr.projects) < RankTotal(st.table, pr.projects))
            || (&& |st'.pool| == |st.pool|
                && RankTotal(st'.table, pr.projects) == RankTotal(st.table, pr.projects)
                && st'.index == st.index + 1)
  {
    match Candidate(pr, st).1
    case Free(_, _) => PlaceKeepsConsistent(pr, st);
    case Bump(_, _, _) => DisplaceKeepsConsistent(pr, st);
    case NoSeat => StepAdvances(pr, st);
  }

  /** When every preference list names every project, the scan always finds a
      seat: if every project were full, the table would hold at least as many
      students as the input, yet the candidate is still in the pool. So the
      cursor never moves. */
  lemma CompleteListsNeverStall(pr: Problem, st: State)
    requires Ready(pr, st) && Complete(pr)
    ensures !Candidate(pr, st).1.NoSeat?
    ensures Step(pr, st).index == st.index
  {
    var s: Student, o: Outcome := Candidate(pr, st).0, Candidate(pr, st).1;
    var list := pr.prefs[s];
    var t, cap := st.table, Cap(pr);
    HeadCount(pr, st);
    PoolMember(pr, st, s);
    if o.NoSeat? {
      forall q | q in pr.projects ensures |t[q]| == cap {
        var j := IndexOf(list, q);
        assert !Admits(t, cap, list[j], j + 1);
      }
      FullRoster(t, pr.projects, cap);
    }
  }

  /** No project on `s`'s list would take `s` now: each is full and none of
      its occupants stored a larger rank than `s` would. */
  ghost predicate Stuck(pr: Problem, t: Table, s: Student)
    requires |pr.projects| > 0
  {
    && s in pr.prefs
    && (forall q :: q in pr.prefs[s] ==> q in t)
    && forall j :: 0 <= j < |pr.prefs[s]| ==> !Admits(t, Cap(pr), pr.prefs[s][j], j + 1)
  }

  /** Every student the cursor has passed is stuck. */
  ghost predicate Passed(pr: Problem, st: State)
    requires |pr.projects| > 0
  {
    && st.index <= |st.pool|
    && forall i :: 0 <= i < st.index ==> Stuck(pr, st.table, st.pool[i])
  }

  /** A project that turns a rank away keeps doing so: a full project stays
      full, and a displacement only brings in a smaller rank than the one it
      removes. */
  lemma RefusalIsPermanent(pr: Problem, st: State, q: Project, rank: nat)
    requires Ready(pr, st) && q in st.table && !Admits(st.table, Cap(pr), q, rank)
    ensures q in Step(pr, st).table && !Admits(Step(pr, st).table, Cap(pr), q, rank)
  {
    var o := Candidate(pr, st).1;
    var t, t' := st.table, Step(pr, st).table;
    assert |t[q]| == Cap(pr);
    match o
    case Free(p, r) =>
      assert p != q;
    case Bump(p, r, k) =>
      StepDisplaces(pr, st);
      if p == q {
        forall j | 0 <= j < |t'[q]| ensures t'[q][j].rank <= rank {
          if j < k {
            assert t'[q][j] == t[q][j];
          } else if j < |t[q]| - 1 {
            assert t'[q][j] == t[q][j + 1];
          } else {
            assert t'[q][j].rank == r < t[q][k].rank;
          }
        }
      }
    case NoSeat =>
  }

  /** A stuck student stays stuck. */
  lemma StuckStaysStuck(pr: Problem, st: State, s: Student)
    requires Ready(pr, st) && Stuck(pr, st.table, s)
    ensures Stuck(pr, Step(pr, st).table, s)
  {
    var list := pr.prefs[s];
    forall j | 0 <= j < |list| ensures list[j] in Step(pr, st).table
      && !Admits(Step(pr, st).table, Cap(pr), list[j], j + 1)
    {
      RefusalIsPermanent(pr, st, list[j], j + 1);
    }
  }

  /** The students behind the cursor stay behind it and stay stuck; the
      cursor moves past a student only when their scan found nothing. */
  lemma StepKeepsPassed(pr: Problem, st: State)
    requires Ready(pr, st) && Passed(pr, st)
    ensures Passed(pr, Step(pr, st))
  {
    var st' := Step(pr, st);
    var o := Candidate(pr, st).1;
    forall i | 0 <= i < st.index ensures Stuck(pr, st'.table, st.pool[i]) {
      StuckStaysStuck(pr, st, st.pool[i]);
    }
    match o
    case Free(_, _) =>
      StepPlaces(pr, st);
      assert forall i :: 0 <= i < st.index ==> st'.pool[i] == st.pool[i];
    case Bump(_, _, _) =>
      StepDisplaces(pr, st);
      assert forall i :: 0 <= i < st.index ==> st'.pool[i] == st.pool[i];
    case NoSeat =>
      StepAdvances(pr, st);
  }

  /** The loop as a recursive definition: stop when everyone is placed;
      otherwise take one step and stop if the cursor has run past the pool.
      The result keeps the invariant, leaves the cursor at or past the end of
      the pool, and every student left in the pool is stuck: the early exit
      abandons nobody who could still be placed. */
  function Run(pr: Problem, st: State): (r: State)
    requires Consistent(pr, st) && (st.index < |st.pool| || st.pool == [])
    requires Passed(pr, st)
    decreases |st.pool|, RankTotal(st.table, pr.projects), |st.pool| - st.index
    ensures Consistent(pr, r)
    ensures r.index >= |r.pool|
    ensures forall s :: s in r.pool ==> Stuck(pr, r.table, s)
  {
    HeadCount(pr, st);
    if |st.placed| >= |pr.students| then st
    else
      StepKeepsConsistent(pr, st);
      StepKeepsPassed(pr, st);
      var st' := Step(pr, st);
      if st'.index >= |st'.pool| then st' else Run(pr, st')
  }

  /** Each student is held at most once in the whole table, and the students
      held are exactly the allocated ones. */
  lemma SeatedOnce(pr: Problem, st: State)
    requires Consistent(pr, st)
    ensures forall s :: Roster(st.table, pr.projects)[s] <= 1
    ensures forall s :: s in Roster(st.table, pr.projects) <==> s in st.placed
  {
    NoneTwice(pr, st);
    DistinctHasUnitCounts(st.placed);
  }
}
