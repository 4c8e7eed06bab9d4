# allocate_projects: a verified model

This project models `allocate_projects` from `allocate.py`. That function assigns students to projects using their ranked preference lists. Every project gets the same capacity: the number of students divided by the number of projects, rounded up.

The function keeps three pieces of state:

- a work pool of unplaced students, which is the caller's `students` list mutated in place;
- one list of `(student, rank)` entries per project, in insertion order;
- a cursor into the pool.

Each iteration scans the preference list of the student under the cursor, from rank 1 upward, and stops at the first project that admits them:

- **Free seat.** If the project has a free seat, the student is appended and leaves the pool.
- **Displacement.** If the project is exactly full and some occupant stored a larger rank, the first such occupant in insertion order is removed from its position in the list. The student is appended at the end of the list and leaves the pool, and the evicted student is appended at the end of the pool.
- **No seat.** If nothing admits the student, the cursor moves on.

The loop stops when everyone is placed or the cursor reaches the end of the pool. The result has three parts:

- every project's list, padded with `None` up to the capacity;
- the students left in the pool;
- those students' preference lists.

## Modules

- `Seqs`: distinctness, plus `RemoveFirst`, which models Python's `list.remove`, and `IndexOf`, the first-occurrence search that `list.remove` performs.
- `Capacity`: the capacity as a rounded-up division.
- `Model`: students, projects, allocations, the problem instance and its well-formedness.
- `Seating`: one student's scan over their preference list.
  - `FirstWorse` is the inner `for allocation in ...` loop.
  - `ScanFrom` is the outer `for project in ...` loop.
- `Occupancy`: views of the whole table as a multiset of seated students and a total of stored ranks.
- `Engine`: one loop iteration (`Step`), the invariant it keeps, and the loop itself as a recursive definition (`Run`). Termination uses a lexicographic measure with three components, in order:
  1. the pool size;
  2. the sum of all stored ranks;
  3. the distance from the cursor to the end of the pool.
- `Finish`: padding, the leftover preference map, and predicates on the returned values.
- `Allocate`: the `while` loop as a method (`Match`) and the whole function (`AllocateProjects`).
- `Scenarios`: a small input worked through the loop.

## Behaviour worth knowing

- **The loop always terminates.** On every input the model covers, the `while` loop ends (`Engine.Run`, `Allocate.Match`):
  - each placement shrinks the pool;
  - each displacement keeps the pool's size and strictly lowers the total of stored ranks;
  - each failed scan moves the cursor toward the end of the pool.
- **Ranks are fixed positions.** A rank is the 1-based position of the project in the student's preference list. Those lists are never modified, so a student's rank for a project is the same on every scan.
- **Leftover preference lists are unchanged.** The third result holds the input lists of the leftover students, as they were passed in.
- **The early exit abandons nobody who could still be placed.** The loop may stop when the cursor passes the end of the pool, before everyone is placed. Every student the cursor has passed is stuck: each project on their list is full, and no occupant stored a larger rank than they would. A stuck student stays stuck (`Engine.StuckStaysStuck`). So when the loop ends, each leftover student is turned away by every project on their list.

## Model

| member | source | states |
|---|---|---|
| Capacity.Ceiling | allocate.py:26-29 | the capacity times the number of projects covers all students; one seat less per project would not; no students give capacity 0 |
| Capacity.CeilingIsLeast | allocate.py:26-29 | any capacity that seats every student is at least the computed one |
| Seqs.IndexOf | allocate.py:67 | the first position holding the value: it holds it and no earlier position does |
| Seqs.RemoveFirst | allocate.py:67 | `list.remove` drops exactly one occurrence: one element shorter, and the multiset loses exactly that value |
| Seqs.RemoveFirstAt | allocate.py:83 | removing a value found at a position with no earlier copy deletes exactly that position and keeps the order of the rest |
| Seqs.PartsOfDistinct | allocate.py:66-67 | two sequences that together make up a duplicate-free list are each duplicate-free and share no element |
| Seating.FirstWorse | allocate.py:72-75 | finds the first occupant in insertion order whose stored rank is strictly larger, and none exists when it reports none |
| Seating.ScanFrom | allocate.py:58-95 | the project found is on the list at the reported rank; every earlier project refused; a free seat means the project is below capacity; a displacement means the project is exactly full, with the victim as the first occupant ranked worse; no seat means no remaining project admits |
| Seating.Scan | allocate.py:55-99 | the scan from rank 1 reports no seat exactly when no project on the list admits the student; otherwise the project found sits on the list at the reported rank, admits them there, and is the first that does |
| Seating.AdmitsMatchesTests | allocate.py:62-75 | a project admits a student at a rank (`Seating.Admits`) exactly when it is below capacity, or exactly full and the search for an occupant with a larger stored rank finds one |
| Seating.FirstFoundNotWorst | allocate.py:72-87 | displacement takes the first worse-ranked occupant, not the worst: against occupants at ranks 3 then 5, rank 2 evicts the one at 3 |
| Engine.Init | allocate.py:24-35 | the initial state (all students in the pool, empty lists, nobody allocated, cursor 0) satisfies the loop invariant |
| Engine.HeadCount | allocate.py:32-36 | pool plus allocated students always number the input students, and the table holds as many entries as there are allocated students |
| Engine.NoneTwice | allocate.py:63-84 | the pool and the allocated students are each duplicate-free and disjoint |
| Engine.PoolMember | allocate.py:58-59 | a pool member has a preference list, and every project on it is a key of the table, so both lookups succeed |
| Engine.SeatedIsAllocated | allocate.py:81 | an evicted occupant is among the allocated students, so `allocated_students.remove` succeeds |
| Engine.Candidate | allocate.py:52-58 | the student scanned is the one under the cursor, an input student with a preference list |
| Engine.Step | allocate.py:52-99 | one iteration keeps the set of projects; the cursor moves exactly when the scan found no seat, and then nothing else changes; a free seat shrinks the pool by one and appends the student to the allocated ones; a displacement keeps both sizes |
| Engine.StepPlaces | allocate.py:62-68 | a free seat appends the student with the scan's rank to a project below capacity; the student leaves the pool at the cursor and joins the allocated students; nothing else changes and the cursor stays |
| Engine.StepDisplaces | allocate.py:71-87 | a displacement happens on an exactly full project and evicts the first occupant ranked worse. The list keeps its length, with the victim removed and the student appended. The victim goes to the end of the pool; other projects and the cursor are unchanged |
| Engine.StepAdvances | allocate.py:96-99 | when no project on the list admits the student, only the cursor moves |
| Engine.PlaceKeepsConsistent | allocate.py:62-68 | a free-seat placement keeps capacities, ranks and student conservation, and shrinks the pool |
| Engine.DisplaceKeepsConsistent | allocate.py:71-87 | a displacement keeps capacities, ranks and student conservation, keeps the pool's size, and strictly lowers the total stored rank |
| Engine.StepKeepsConsistent | allocate.py:36-103 | every iteration keeps the invariant and lowers the lexicographic termination measure |
| Engine.CompleteListsNeverStall | allocate.py:10 | when every list names every project, the scan always finds a seat and the cursor never moves |
| Engine.RefusalIsPermanent | allocate.py:71-87 | a project that turns a rank away keeps turning it away after any iteration |
| Engine.StuckStaysStuck | allocate.py:96-99 | a student no project on their list admits stays so after any iteration |
| Engine.StepKeepsPassed | allocate.py:96-103 | students behind the cursor stay behind it and stay stuck |
| Engine.Run | allocate.py:35-103 | the loop terminates with the invariant intact and the cursor at or past the pool's end, and every student left in the pool is stuck |
| Engine.SeatedOnce | allocate.py:63-84 | no student is held twice in the table, and the students held are exactly the allocated ones |
| Finish.PadRow | allocate.py:107-108 | the padding loop reaches the capacity, keeps the existing entries, and adds only placeholders |
| Finish.Pad | allocate.py:106-108 | a padded list holds the allocations in order, then placeholders up to the capacity |
| Finish.PresentOfPad | allocate.py:106-108 | removing the placeholders from a padded list gives back exactly the allocations |
| Finish.PadAll | allocate.py:106-108 | padding keeps the set of projects and every project's allocations |
| Finish.PlacedOfPadAll | allocate.py:106-111 | the students in the padded result are the students the table held |
| Finish.Leftovers | allocate.py:111 | the returned preference map has exactly the leftover students as keys, each with their input list |
| Allocate.Finished | allocate.py:106-111 | a final state pads to full-capacity columns with correct ranks, and splits the students into placed and leftover |
| Allocate.Match | allocate.py:35-103 | the `while` loop computes `Run` from the initial state, keeps the invariant, and leaves nobody over when every list names every project |
| Allocate.AllocateProjects | allocate.py:7-111 | fails exactly when there are no projects. Otherwise: columns padded to capacity with placeholders last; correct stored ranks; placed and leftover students partition the input; leftover preferences are the inputs restricted to the leftovers; every leftover is turned away by every listed project; no leftovers when every list names every project; and the result is exactly the padded table, the pool and the leftover map of the loop run from the initial state |
| Scenarios.EqualLengthListsCanLeaveStudents | allocate.py:10 | two students whose equal-length lists both name only the first of two projects: the loop leaves the second student over |

## Findings

| source | as written | input that shows it | evidently intended | confidence | as-written member | corrected member |
|---|---|---|---|---|---|---|
| allocate.py:10 | the docstring promises that preference lists of equal length leave no student unallocated | students S1, S2; projects P1, P2; both lists are [P1]; capacity is 1, S1 takes P1 at rank 1, and S2 at rank 1 cannot displace S1 | lists that name every project leave no student unallocated | not executed | Scenarios.EqualLengthListsCanLeaveStudents | Engine.CompleteListsNeverStall |

The corrected guarantee is also a postcondition of `Allocate.AllocateProjects`: when every list names every project, the leftover list is empty.

## Left out

- The script part of `allocate.py` (lines 113-170) is not modelled. It reads the spreadsheet, derives preference lists by sorting scores, and writes the result table. All of that is file I/O and pandas calls.
- The commented-out debug printing (lines 37-51) does nothing.
- Allocate.AllocateProjects: requires that every student has a preference list and that every listed project is a known project. Python raises `KeyError` at lines 58-59 or 111 otherwise. The list lookup only fails when a scan actually reaches the unknown project, which depends on the run, so the model asks for these up front instead of modelling that error path.
- Allocate.AllocateProjects: requires that no student or project is named twice. With duplicate names Python runs on, but `list.remove` then acts on the first copy, which may not be the one under the cursor. The model does not cover that behaviour.
- Seqs.RemoveFirst: requires the value to be present. Python raises `ValueError` otherwise. The invariant shows this never happens in `allocate_projects`.
- The source mutates the caller's `students` list in place and returns that same list. The model returns the final pool as a new value, so aliasing with the caller is not modelled.
- The source returns dicts that iterate in project order (line 24) and in pool order (line 111). The model returns maps, which have no order; nothing in the function depends on that order.
- Student and project names are opaque strings. Python tuples `(student, rank)` are the `Allocation` datatype, and `None` is the `Option` placeholder.
