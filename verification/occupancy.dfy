/** Views of the whole allocation table: every stored entry, project by project
    in the order of the project list, with the students' names and the sum of
    the stored ranks. These carry the conservation and termination arguments. */
module Occupancy {
  import opened Seqs
  import opened Model

  /** The students of a list of entries, in order. */
  function Names(xs: seq<Allocation>): seq<Student> {
    seq(|xs|, i requires 0 <= i < |xs| => xs[i].student)
  }

  /** The sum of the stored ranks. */
  function RankSum(xs: seq<Allocation>): nat {
    if xs == [] then 0 else xs[0].rank + RankSum(xs[1..])
  }

  /** The students held by the projects `ps`, counted with multiplicity. */
  function Roster(t: Table, ps: seq<Project>): multiset<Student>
    requires forall q :: q in ps ==> q in t
  {
    if ps == [] then multiset{} else multiset(Names(t[ps[0]])) + Roster(t, ps[1..])
  }

  /** The sum of all ranks stored for the projects `ps`. */
  function RankTotal(t: Table, ps: seq<Project>): nat
    requires forall q :: q in ps ==> q in t
  {
    if ps == [] then 0 else RankSum(t[ps[0]]) + RankTotal(t, ps[1..])
  }

  lemma NamesConcat(a: seq<Allocation>, b: seq<Allocation>)
    ensures Names(a + b) == Names(a) + Names(b)
  {
  }

  lemma {:induction false} RankSumConcat(a: seq<Allocation>, b: seq<Allocation>)
    ensures RankSum(a + b) == RankSum(a) + RankSum(b)
  {
    if a != [] {
      assert (a + b)[1..] == a[1..] + b;
      RankSumConcat(a[1..], b);
    } else {
      assert a + b == b;
    }
  }

  /** Removing one entry takes its name out of the names and its rank out of
      the rank sum. */
  lemma RemoveEntry(xs: seq<Allocation>, a: Allocation)
    requires a in xs
    ensures multiset(Names(RemoveFirst(xs, a))) + multiset{a.student} == multiset(Names(xs))
    ensures RankSum(RemoveFirst(xs, a)) + a.rank == RankSum(xs)
  {
    var i := IndexOf(xs, a);
    var front, back := xs[..i], xs[i + 1..];
    assert xs == front + ([a] + back);
    assert RemoveFirst(xs, a) == front + back;
    RemoveEntryNames(front, a, back);
    RankSumConcat(front, [a] + back);
    RankSumConcat([a], back);
    RankSumConcat(front, back);
  }

  lemma RemoveEntryNames(front: seq<Allocation>, a: Allocation, back: seq<Allocation>)
    ensures multiset(Names(front + back)) + multiset{a.student} == multiset(Names(front + ([a] + back)))
  {
    NamesConcat(front, [a] + back);
    NamesConcat([a], back);
    NamesConcat(front, back);
    var f, b := Names(front), Names(back);
    assert Names([a]) == [a.student];
    assert multiset(f + b) == multiset(f) + multiset(b);
    assert multiset(f + ([a.student] + b)) == multiset(f) + (multiset{a.student} + multiset(b));
  }

  /** Appending one entry adds its name and its rank. */
  lemma AppendEntry(xs: seq<Allocation>, a: Allocation)
    ensures Names(xs + [a]) == Names(xs) + [a.student]
    ensures RankSum(xs + [a]) == RankSum(xs) + a.rank
  {
    NamesConcat(xs, [a]);
    RankSumConcat(xs, [a]);
  }

  /** Changing a project outside `ps` leaves the roster and rank total of
      `ps` alone. */
  lemma {:induction false} UpdateElsewhere(t: Table, ps: seq<Project>, p: Project, l: seq<Allocation>)
    requires forall q :: q in ps ==> q in t
    requires p !in ps
    ensures Roster(t[p := l], ps) == Roster(t, ps)
    ensures RankTotal(t[p := l], ps) == RankTotal(t, ps)
  {
    if ps != [] {
      UpdateElsewhere(t, ps[1..], p, l);
    }
  }

  /** Replacing the list of one project `p` of a distinct project list swaps
      that list's names for those of the new list on the roster. */
  lemma {:induction false} RosterUpdate(t: Table, ps: seq<Project>, p: Project, l: seq<Allocation>)
    requires forall q :: q in ps ==> q in t
    requires Distinct(ps) && p in ps
    ensures Roster(t[p := l], ps) + multiset(Names(t[p])) == Roster(t, ps) + multiset(Names(l))
  {
    var t' := t[p := l];
    var rest := ps[1..];
    DistinctTail(ps);
    assert Roster(t', ps) == multiset(Names(t'[ps[0]])) + Roster(t', rest);
    assert Roster(t, ps) == multiset(Names(t[ps[0]])) + Roster(t, rest);
    if ps[0] == p {
      UpdateElsewhere(t, rest, p, l);
    } else {
      RosterUpdate(t, rest, p, l);
      var head := multiset(Names(t[ps[0]]));
      assert t'[ps[0]] == t[ps[0]];
      assert head + Roster(t', rest) + multiset(Names(t[p]))
          == head + (Roster(t', rest) + multiset(Names(t[p])));
    }
  }

  /** Replacing the list of one project `p` of a distinct project list swaps
      that list's rank sum for that of the new list in the rank total. */
  lemma {:induction false} RankTotalUpdate(t: Table, ps: seq<Project>, p: Project, l: seq<Allocation>)
    requires forall q :: q in ps ==> q in t
    requires Distinct(ps) && p in ps
    ensures RankTotal(t[p := l], ps) + RankSum(t[p]) == RankTotal(t, ps) + RankSum(l)
  {
    var t' := t[p := l];
    var rest := ps[1..];
    DistinctTail(ps);
    assert RankTotal(t', ps) == RankSum(t'[ps[0]]) + RankTotal(t', rest);
    assert RankTotal(t, ps) == RankSum(t[ps[0]]) + RankTotal(t, rest);
    if ps[0] == p {
      UpdateElsewhere(t, rest, p, l);
    } else {
      RankTotalUpdate(t, rest, p, l);
    }
  }

  /** The tail of a distinct list is distinct and misses the head. */
  lemma DistinctTail(ps: seq<Project>)
    requires Distinct(ps) && ps != []
    ensures Distinct(ps[1..]) && ps[0] !in ps[1..]
  {
    var rest := ps[1..];
    forall i, j | 0 <= i < j < |rest| ensures rest[i] != rest[j] {
      assert rest[i] == ps[i + 1] && rest[j] == ps[j + 1];
    }
    forall j | 0 <= j < |rest| ensures rest[j] != ps[0] {
      assert rest[j] == ps[j + 1];
    }
  }

  /** Every stored entry of a project in `ps` is on the roster of `ps`. */
  lemma {:induction false} SeatedIsRostered(t: Table, ps: seq<Project>, p: Project, j: nat)
    requires forall q :: q in ps ==> q in t
    requires p in ps && j < |t[p]|
    ensures t[p][j].student in Roster(t, ps)
  {
    if ps[0] == p {
      assert Names(t[p])[j] == t[p][j].student;
    } else {
      SeatedIsRostered(t, ps[1..], p, j);
    }
  }

  /** When every project of `ps` holds exactly `cap` entries, the roster has
      `cap * |ps|` students. */
  lemma {:induction false} FullRoster(t: Table, ps: seq<Project>, cap: nat)
    requires forall q :: q in ps ==> q in t
    requires forall q :: q in ps ==> |t[q]| == cap
    ensures |Roster(t, ps)| == cap * |ps|
  {
    if ps != [] {
      var n := |ps[1..]|;
      FullRoster(t, ps[1..], cap);
      assert |multiset(Names(t[ps[0]]))| == cap;
      assert |Roster(t, ps)| == cap + cap * n;
      MulSucc(cap, n);
    }
  }

  lemma MulSucc(c: nat, n: nat)
    ensures c * (n + 1) == c + c * n
  {
  }
}
