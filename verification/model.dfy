/** The data the allocation engine works on: students, projects, the stored
    (student, rank) allocations, and the problem instance with the conditions
    under which `allocate_projects` runs without a lookup or division error. */
module Model {
  import opened Seqs
  import Capacity

  type Student = string
  type Project = string

  datatype Option<T> = None | Some(value: T)

  /** One entry of a project's list: the student and the 1-based rank that
      project has in the student's preference list. */
  datatype Allocation = Allocation(student: Student, rank: nat)

  /** The per-project allocation lists, in insertion order. */
  type Table = map<Project, seq<Allocation>>

  /** Each student's preference list, most preferred project first. */
  type Preferences = map<Student, seq<Project>>

  /** The three inputs of `allocate_projects`. */
  datatype Problem = Problem(students: seq<Student>, projects: seq<Project>, prefs: Preferences)

  /** The inputs the model covers: at least one project (the capacity divides
      by their number), no student or project named twice, a preference list
      for every student, and only known projects in those lists. */
  predicate WellFormed(pr: Problem) {
    && |pr.projects| > 0
    && Distinct(pr.students)
    && Distinct(pr.projects)
    && (forall s :: s in pr.students ==> s in pr.prefs)
    && (forall s, q :: s in pr.students && q in pr.prefs[s] ==> q in pr.projects)
  }

  /** The capacity every project gets, fixed from the original head count. */
  function Cap(pr: Problem): nat
    requires |pr.projects| > 0
  {
    Capacity.Ceiling(|pr.students|, |pr.projects|)
  }

  /** The stored rank of `a` in project `p` is the 1-based position of `p` in
      the student's preference list. */
  predicate RankOk(prefs: Preferences, p: Project, a: Allocation) {
    && a.student in prefs
    && 1 <= a.rank <= |prefs[a.student]|
    && prefs[a.student][a.rank - 1] == p
  }

  /** Every student's preference list names every project. */
  predicate Complete(pr: Problem) {
    forall s, q :: s in pr.students && s in pr.prefs && q in pr.projects ==> q in pr.prefs[s]
  }
}
