/** One student's scan of their preference list: the first project that has a
    free seat, or that is exactly full and holds an occupant who ranked it worse. */
module Seating {
  import opened Model

  /** What the scan of one student's preference list found. `Free`: the project
      at `rank` has room. `Bump`: the project at `rank` is full and its entry at
      position `victim` is the first one with a larger stored rank. `NoSeat`:
      the list ran out. */
  datatype Outcome =
    | Free(project: Project, rank: nat)
    | Bump(project: Project, rank: nat, victim: nat)
    | NoSeat

  /** Position of the first occupant, in insertion order, whose stored rank is
      strictly greater than `rank` (the inner `for allocation in ...` loop). */
  function FirstWorse(occupants: seq<Allocation>, rank: nat): (k: Option<nat>)
    ensures k.Some? ==> k.value < |occupants| && occupants[k.value].rank > rank
    ensures k.Some? ==> forall j :: 0 <= j < k.value ==> occupants[j].rank <= rank
    ensures k.None? ==> forall j :: 0 <= j < |occupants| ==> occupants[j].rank <= rank
  {
    if occupants == [] then None
    else if occupants[0].rank > rank then Some(0)
    else match FirstWorse(occupants[1..], rank)
      case None => None
      case Some(k) => Some(k + 1)
  }

  /** Project `q`, tried at `rank`, takes the student: it has room, or it is
      exactly full and some occupant stored a larger rank. */
  predicate Admits(t: Table, cap: nat, q: Project, rank: nat)
    requires q in t
  {
    || |t[q]| < cap
    || (|t[q]| == cap && exists j :: 0 <= j < |t[q]| && t[q][j].rank > rank)
  }

  /** The scan from position `i` (rank `i + 1`) to the end of `list`. A project
      holding more than `cap` entries is skipped, as the source's two `if`s
      both fail for it. */
  function ScanFrom(t: Table, cap: nat, list: seq<Project>, i: nat): (r: Outcome)
    requires i <= |list|
    requires forall q :: q in list ==> q in t
    decreases |list| - i
    ensures r.Free? || r.Bump? ==> i < r.rank <= |list| && list[r.rank - 1] == r.project && r.project in t
    ensures r.Free? || r.Bump? ==> forall j :: i <= j < r.rank - 1 ==> !Admits(t, cap, list[j], j + 1)
    ensures r.Free? ==> |t[r.project]| < cap
    ensures r.Bump? ==> |t[r.project]| == cap && r.victim < |t[r.project]|
    ensures r.Bump? ==> t[r.project][r.victim].rank > r.rank
    ensures r.Bump? ==> forall j :: 0 <= j < r.victim ==> t[r.project][j].rank <= r.rank
    ensures r.NoSeat? ==> forall j :: i <= j < |list| ==> !Admits(t, cap, list[j], j + 1)
  {
    if i == |list| then NoSeat
    else
      var q := list[i];
      if |t[q]| < cap then Free(q, i + 1)
      else if |t[q]| == cap then
        match FirstWorse(t[q], i + 1)
        case Some(k) => Bump(q, i + 1, k)
        case None => ScanFrom(t, cap, list, i + 1)
      else ScanFrom(t, cap, list, i + 1)
  }

  /** The scan of a whole preference list, starting at rank 1 (the source's
      `for project in preferences[student]` with `rank = 1`). It reports
      `NoSeat` exactly when no project on the list admits the student;
      otherwise the project it reports admits them at the reported rank and
      is the first on the list that does. */
  function Scan(t: Table, cap: nat, list: seq<Project>): (r: Outcome)
    requires forall q :: q in list ==> q in t
    ensures r.NoSeat? <==> forall j :: 0 <= j < |list| ==> !Admits(t, cap, list[j], j + 1)
    ensures !r.NoSeat? ==>
              && 1 <= r.rank <= |list| && list[r.rank - 1] == r.project
              && Admits(t, cap, r.project, r.rank)
              && forall j :: 0 <= j < r.rank - 1 ==> !Admits(t, cap, list[j], j + 1)
  {
    var r := ScanFrom(t, cap, list, 0);
    assert !r.NoSeat? ==> Admits(t, cap, list[r.rank - 1], r.rank);
    r
  }

  /** The declarative `Admits` agrees with the source's two tests: the
      project has room, or it is exactly full and the search for an occupant
      with a larger stored rank finds one. */
  lemma AdmitsMatchesTests(t: Table, cap: nat, q: Project, rank: nat)
    requires q in t
    ensures Admits(t, cap, q, rank) <==>
              || |t[q]| < cap
              || (|t[q]| == cap && FirstWorse(t[q], rank).Some?)
  {
    if |t[q]| == cap && FirstWorse(t[q], rank).None? {
      assert forall j :: 0 <= j < |t[q]| ==> t[q][j].rank <= rank;
    }
  }

  /** Displacement takes the first occupant with a larger stored rank, not the
      one with the largest: against occupants stored at ranks 3 and then 5, a
      candidate at rank 2 evicts the one at rank 3. */
  lemma FirstFoundNotWorst()
    ensures FirstWorse([Allocation("A", 3), Allocation("B", 5)], 2) == Some(0)
  {
  }
}
