/** What `allocate_projects` returns once the loop is over: every project's
    list padded with `None` up to the capacity, and the input preferences
    restricted to the students left in the pool. */
module Finish {
  import opened Seqs
  import opened Model
  import opened Occupancy

  /** A project's column in the result: allocations, then `None` placeholders. */
  type Row = seq<Option<Allocation>>

  /** The source's `while len(...) < max_capacity: ...append(None)`. */
  function PadRow(row: Row, cap: nat): (r: Row)
    decreases cap - |row|
    ensures |r| == if |row| < cap then cap else |row|
    ensures r[..|row|] == row
    ensures forall i :: |row| <= i < |r| ==> r[i] == None
  {
    if |row| < cap then PadRow(row + [None], cap) else row
  }

  /** A project's allocations, padded to `cap` entries. */
  function Pad(xs: seq<Allocation>, cap: nat): (r: Row)
    ensures |r| == if |xs| < cap then cap else |xs|
    ensures forall i :: 0 <= i < |xs| ==> r[i] == Some(xs[i])
    ensures forall i :: |xs| <= i < |r| ==> r[i] == None
  {
    var row := seq(|xs|, i requires 0 <= i < |xs| => Some(xs[i]));
    var r := PadRow(row, cap);
    assert forall i :: 0 <= i < |xs| ==> r[i] == r[..|row|][i];
    r
  }

  /** The allocations of a row, in order, without the placeholders. */
  function Present(row: Row): seq<Allocation> {
    if row == [] then []
    else if row[0].Some? then [row[0].value] + Present(row[1..])
    else Present(row[1..])
  }

  /** A row that holds `xs` and then only placeholders presents `xs`. */
  lemma {:induction false} PresentOfPrefix(row: Row, xs: seq<Allocation>)
    requires |xs| <= |row|
    requires forall i :: 0 <= i < |xs| ==> row[i] == Some(xs[i])
    requires forall i :: |xs| <= i < |row| ==> row[i] == None
    ensures Present(row) == xs
  {
    if row != [] {
      if xs == [] {
        PresentOfPrefix(row[1..], []);
      } else {
        PresentOfPrefix(row[1..], xs[1..]);
        assert xs == [xs[0]] + xs[1..];
      }
    }
  }

  /** Padding loses and reorders nothing: stripping the placeholders gives
      back the allocations. */
  lemma PresentOfPad(xs: seq<Allocation>, cap: nat)
    ensures Present(Pad(xs, cap)) == xs
  {
    PresentOfPrefix(Pad(xs, cap), xs);
  }

  /** Every project's list padded (the source's final `for project in ...`). */
  function PadAll(t: Table, cap: nat): (m: map<Project, Row>)
    ensures forall q :: q in m <==> q in t
    ensures forall q :: q in t ==> Present(m[q]) == t[q]
  {
    var m := map q | q in t :: Pad(t[q], cap);
    assert forall q :: q in t ==> Present(m[q]) == t[q] by {
      forall q | q in t ensures Present(m[q]) == t[q] {
        PresentOfPad(t[q], cap);
      }
    }
    m
  }

  /** The students placed in the projects `ps` of a result, project by project. */
  function Placed(asg: map<Project, Row>, ps: seq<Project>): seq<Student>
    requires forall q :: q in ps ==> q in asg
  {
    if ps == [] then [] else Names(Present(asg[ps[0]])) + Placed(asg, ps[1..])
  }

  /** The students placed in the padded result are the students the table held. */
  lemma {:induction false} PlacedOfPadAll(t: Table, cap: nat, ps: seq<Project>)
    requires forall q :: q in ps ==> q in t
    ensures multiset(Placed(PadAll(t, cap), ps)) == Roster(t, ps)
  {
    if ps != [] {
      PlacedOfPadAll(t, cap, ps[1..]);
    }
  }

  /** The source's `{student: preferences[student] for student in students}`
      over the students left in the pool. */
  function Leftovers(prefs: Preferences, pool: seq<Student>): (m: Preferences)
    requires forall s :: s in pool ==> s in prefs
    ensures forall s :: s in m <==> s in pool
    ensures forall s :: s in m ==> m[s] == prefs[s]
  {
    map s | s in pool :: prefs[s]
  }

  /** Every project has a column of exactly `cap` entries, with placeholders
      only after the allocations. */
  ghost predicate Padded(asg: map<Project, Row>, projects: seq<Project>, cap: nat) {
    && (forall q :: q in asg <==> q in projects)
    && (forall q :: q in asg ==> |asg[q]| == cap)
    && (forall q, i, j :: q in asg && 0 <= i < j < |asg[q]| && asg[q][i].None? ==> asg[q][j].None?)
  }

  /** Every allocation of the result stores the 1-based position of its
      project in the student's preference list. */
  ghost predicate RanksRight(asg: map<Project, Row>, prefs: Preferences) {
    forall q, i :: q in asg && 0 <= i < |asg[q]| && asg[q][i].Some? ==> RankOk(prefs, q, asg[q][i].value)
  }

  /** The placed and the leftover students split the input: nobody is lost or
      invented, placed twice, left over twice, or both placed and left over. */
  ghost predicate Splits(students: seq<Student>, placed: seq<Student>, leftover: seq<Student>) {
    && multiset(leftover) + multiset(placed) == multiset(students)
    && Distinct(placed)
    && Distinct(leftover)
    && (forall s :: s in leftover ==> s !in placed)
  }

  /** The leftover preferences are the input lists of exactly the leftover
      students. */
  ghost predicate RestrictedTo(lp: Preferences, prefs: Preferences, leftover: seq<Student>) {
    && (forall s :: s in lp <==> s in leftover)
    && (forall s :: s in lp ==> s in prefs && lp[s] == prefs[s])
  }

  /** Every project on each leftover student's list is full, and each of its
      occupants stored a rank no larger than the one the leftover student
      would have had there. */
  ghost predicate LeftoversRefused(asg: map<Project, Row>, prefs: Preferences, leftover: seq<Student>) {
    forall s, j, i ::
      s in leftover && s in prefs && 0 <= j < |prefs[s]| && prefs[s][j] in asg
      && 0 <= i < |asg[prefs[s][j]]| ==>
        asg[prefs[s][j]][i].Some? && asg[prefs[s][j]][i].value.rank <= j + 1
  }
}
