# Lab scheduler core, modelled in Dafny

This project models the scheduling engine of `Lab_Scheduler.py`. The engine places every course's lab session at a (day, timeslot, lab, lecturer) slot. The parts modelled are:

- **Domain.** Each course gets a domain: every combination of the calendar's day/label pairs, the labs `1..num_labs` and the lecturers of the course's department, or the placeholder `"Unknown"` when the department has no roster entry.
- **Search.** A depth-first backtracking search goes through the courses in fail-first order, smallest domain first, using a stable sort.
- **Admission checks.** A candidate is admitted only if it passes four checks:
  - no room already taken at that day and time;
  - no lecturer already booked at that day and time;
  - the lecturer's day keeps no more than `max_back_to_back` consecutive slots;
  - same-course day-pattern consistency.
- **Mirror session.** A session on Mon/Tue/Wed/Thu is mirrored onto its partner day (Mon<->Wed, Tue<->Thu). The mirror must pass the same checks and is committed under the course's `::Dup` key.
- **Undo.** A failed branch undoes both sessions.
- **Result.** A successful search is grouped into one entry per course: the main session plus at most one mirror.

The project has five modules, one per file:

- `Calendar` (`calendar.dfy`):
  - days and their pattern classes, and the day pairing;
  - the calendar as an ordered sequence of (day, labels) entries;
  - slot indices.
- `Domain` (`domain.dfy`):
  - the lecturer lookup;
  - the domain as a product (`Product`);
  - the four-loop builder proved equal to it.
- `Constraints` (`constraints.dfy`):
  - the room and lecturer conflict tests;
  - the back-to-back scan, proved against a run-based specification;
  - the same-course rules.
- `Search` (`search.dfy`):
  - a value `State` of the four pieces of search state, with `Commit` and `Undo` functions on it and the search invariant `Inv`;
  - the class `SearchState`, whose fields are the source's `assignments`, `room_schedule`, `lec_time_set` and `lec_schedule`, and whose methods update them in place. This includes the recursive `Backtrack`.
- `Solver` (`solver.dfy`):
  - the stable sort by domain size;
  - the grouping loop, with its round trip;
  - `Solve`.

The source reads several module-level values: the calendar `slots_by_day`, the lab list, the lecturer roster and `max_back_to_back`. Here they are parameters. An assignment key is the datatype `Key = Main(course) | Dup(course)`; it stands for the strings `course` and `course + "::Dup"`.

## Model

| member | source | states |
|---|---|---|
| Calendar.PairedDayInvolution | Lab_Scheduler.py:84-99 | Exactly the MW and TTh days have a partner. The partner is a different day, pairs back to the original, and has the same pattern class. |
| Calendar.SamePatternClass | Lab_Scheduler.py:84-91 | `day_pattern` puts two days in the same class exactly when they are equal, are partner days, are both Fri/Sat, or are both outside Mon..Sat. |
| Calendar.PairedDay | Lab_Scheduler.py:93-99 | A day has a partner exactly when its pattern is MW or TTh. The partner is a different day of the same pattern. |
| Calendar.SlotsOf | Lab_Scheduler.py:58-65 | A day's label list is found exactly when the calendar has an entry for that day, and the list found is that entry's. |
| Calendar.LastIndexOf | Lab_Scheduler.py:121 | The index that an enumerate-built dictionary gives a label: absent exactly when the label is not listed, otherwise a position holding the label with no later position holding it. |
| Calendar.SlotIndexOnCalendar | Lab_Scheduler.py:227 | A label on the calendar has a slot index. On a well-formed calendar, two labels of one day with the same index are the same label. |
| Calendar.SlotIndex | Lab_Scheduler.py:227 | A `slot_index_map` lookup succeeds exactly when the label is listed for that day, and the index found holds that label in the day's list. |
| Domain.DeptPrefix | Lab_Scheduler.py:82 | `course[:3]`: a prefix of the code, of length 3, or the whole code when it is shorter. |
| Domain.GetLecturers | Lab_Scheduler.py:81-82 | A department on the roster gives its own roster list, and a department missing from the roster gives `["Unknown"]`. With every roster list non-empty (as lines 76-78 ensure), the pool is never empty. |
| Domain.Labs | Lab_Scheduler.py:66 | The lab list has `n` entries and holds exactly the labs `1..n`. |
| Domain.LabRowsLength | Lab_Scheduler.py:106-108 | The labs x lecturers block of one timeslot has `|labs| * |lecturers|` candidates. |
| Domain.TimeRowsLength | Lab_Scheduler.py:105-108 | One day's block has `|labels| * |labs| * |lecturers|` candidates. |
| Domain.ProductLength | Lab_Scheduler.py:101-109 | The domain has (number of calendar slots) x (labs) x (lecturers) candidates. |
| Domain.LabRowsMembers | Lab_Scheduler.py:106-108 | A candidate is in one timeslot's block exactly when it has that day and label, a listed lab and a listed lecturer. |
| Domain.TimeRowsMembers | Lab_Scheduler.py:105-108 | A candidate is in one day's block exactly when it has that day, one of its labels, a listed lab and a listed lecturer. |
| Domain.ProductMembers | Lab_Scheduler.py:101-109 | A candidate is in the domain exactly when some calendar entry lists its day and label and its lab and lecturer are listed. Nothing is filtered. |
| Domain.ListedIsOnCalendar | Lab_Scheduler.py:104-105 | On a calendar with distinct days, being listed by some entry is the same as being found by a dictionary lookup of the day. |
| Domain.AppendLecturers | Lab_Scheduler.py:107-108 | The innermost loop appends exactly one timeslot-and-lab's row: one candidate per lecturer, in pool order. |
| Domain.AppendLabs | Lab_Scheduler.py:106-108 | The loop over the labs appends exactly that label's block, lab by lab. |
| Domain.AppendTimes | Lab_Scheduler.py:105-108 | The loop over a day's labels appends exactly that day's block, label by label. |
| Domain.BuildDomain | Lab_Scheduler.py:103-109 | The loop over the days, together with the three inner loops, produces exactly the product sequence, in day -> label -> lab -> lecturer order. |
| Domain.BuildDomainForCourse | Lab_Scheduler.py:101-109 | The domain is the product for the course's lecturer pool. Its size is slots x `num_labs` x pool size. It holds exactly the on-calendar candidates with a lab in `1..num_labs` and a pool lecturer. |
| Constraints.RoomConflictMeansOccupied | Lab_Scheduler.py:111-112 | Against the rooms of an assignment, `room_conflict` fires exactly when a committed session holds that lab at the same day and time. |
| Constraints.LecturerConflictMeansBooked | Lab_Scheduler.py:114-115 | Against the lecturer slots of an assignment, `lecturer_conflict` fires exactly when a committed session has that lecturer at the same day and time. |
| Constraints.Insert | Lab_Scheduler.py:125 | One step of `sorted()`: the result holds the old elements plus the new one (as a multiset). |
| Constraints.InsertAscending | Lab_Scheduler.py:125 | Inserting into an ascending list keeps it ascending. |
| Constraints.SortInts | Lab_Scheduler.py:125 | `sorted()` on slot indices: an ascending permutation of its argument. |
| Constraints.RunLengthIsLongestRun | Lab_Scheduler.py:126-133 | The scan's counter at position `j` is the length of a run of consecutive integers ending at `j`, and no run ending there is longer. |
| Constraints.LongRunAt | Lab_Scheduler.py:128-131 | When the counter exceeds the limit, the sorted list holds a run longer than the limit. |
| Constraints.NoLongRun | Lab_Scheduler.py:126-134 | A scan that completes with every counter within the limit means the list holds no run of length >= 2 above the limit. |
| Constraints.BackToBackOk | Lab_Scheduler.py:117-134 | Accepts exactly when one of two things holds. Either the lecturer has no list for the day, or the label has a slot index on that day and the sorted list with that index added holds no run of consecutive indices longer than the limit. |
| Constraints.AscendingSetIsStrict | Lab_Scheduler.py:125 | A sorted list holding each index of a set exactly once is strictly ascending. |
| Constraints.BlockIsRun | Lab_Scheduler.py:125-133 | If the set holds the k consecutive indices `i .. i+k-1`, then its strictly ascending list has them at k consecutive positions, ending with `i+k-1`. |
| Constraints.NoBlockInSet | Lab_Scheduler.py:125-134 | When the sorted list passes the scan (no long run), the set of its indices has no block of consecutive indices longer than the limit. |
| Constraints.Compatible | Lab_Scheduler.py:150-157 | The three same-course rules amount to this: a different (day, time, lab), and the same pattern class unless one of the two days is outside Mon..Sat. |
| Constraints.SameCourseConsistent | Lab_Scheduler.py:136-158 | The check passes exactly when every entry of the course has a different (day, time, lab) from the candidate, and the same pattern class unless one of the two days is outside Mon..Sat. |
| Constraints.SameCourseOnlyOwnEntries | Lab_Scheduler.py:145-148 | The consistency check only looks at the course's own main and `::Dup` entries. |
| Search.PairOf | Lab_Scheduler.py:176-179 | A candidate has a mirror exactly when its day's pattern is MW or TTh. The mirror keeps the time, lab and lecturer and moves to a different day of the same pattern. |
| Search.PairOfProperties | Lab_Scheduler.py:176-178 | The mirrored session is on another day, so it never shares a room slot or a lecturer slot with its main session. |
| Search.WellFormedPair | Lab_Scheduler.py:186-198 | On a well-formed calendar, an on-calendar candidate's mirror is on the calendar too, and both slot-index lookups of the commit succeed. |
| Search.ProjectionsOfInsert | Lab_Scheduler.py:187-189 | Adding an entry grows the room and lecturer projections by exactly that session's triples. |
| Search.InsertKeepsNoDoubleBooking | Lab_Scheduler.py:170-171 | An entry whose room triple and lecturer triple are free keeps the assignment free of double booking. |
| Search.SlotsAtAppend | Lab_Scheduler.py:190 | An append grows exactly the target lecturer-day's list by the new index, and leaves every other list alone. |
| Search.SlotsAtPopLast | Lab_Scheduler.py:208-213 | A pop drops the last index of exactly the target lecturer-day's list, and leaves every other list alone. |
| Search.AppendKeepsFatigue | Lab_Scheduler.py:172-190 | An append that the back-to-back check allowed keeps every lecturer-day free of runs longer than the limit. |
| Search.IndicesOfInsert | Lab_Scheduler.py:187-190 | A new session adds its slot index to its own lecturer-day's indices and leaves the other lecturer-days' indices unchanged. |
| Search.FreshIndex | Lab_Scheduler.py:171-190 | On a well-formed calendar, a session whose lecturer is free at its day and time takes a slot index the lecturer does not yet use that day. |
| Search.KeyMatchAfterInsert | Lab_Scheduler.py:187-190 | After one session with a fresh index, each lecturer-day's slot list is still, as a multiset, the set of its sessions' indices. |
| Search.CommitSessionKeepsMatch | Lab_Scheduler.py:171-190 | One session whose lecturer is free keeps every lecturer-day's slot list equal to the indices of its sessions. |
| Search.CommitKeepsMatch | Lab_Scheduler.py:170-198 | A commit whose candidate and mirror passed the checks keeps every slot list matched to the sessions. |
| Search.FatigueOnSessions | Lab_Scheduler.py:117-134 | Under the invariant, no lecturer's sessions on one day cover a block of consecutive slot indices longer than the limit. |
| Search.CommitSessionKeepsOccupancy | Lab_Scheduler.py:170-190 | Committing one admissible session keeps the state's invariants. The room and lecturer sets stay the projections of the assignment. There is still no double booking and every session is on the calendar. Every lecturer-day still has no run longer than the limit. |
| Search.CommitKeepsPairing | Lab_Scheduler.py:176-198 | After a commit, every main entry on Mon..Thu has its mirror as the `::Dup` entry. A main entry on any other day has none. No `::Dup` entry exists without its main entry. |
| Search.CommitKeepsOccupancy | Lab_Scheduler.py:170-198 | A commit whose candidate and mirror both passed the checks keeps the occupancy invariant. |
| Search.CommitKeepsInv | Lab_Scheduler.py:170-198 | A commit whose candidate and mirror both passed the checks keeps the whole search invariant: occupancy, pairing, and slot lists that match the sessions. |
| Search.ScheduleUndo | Lab_Scheduler.py:186-210 | Two appends to different lecturer-days, then two pops, leave every slot list as it was. |
| Search.ScheduleUndoOne | Lab_Scheduler.py:186-208 | One append then one pop leaves every slot list as it was. |
| Search.UndoAfterPairedCommit | Lab_Scheduler.py:186-213 | Undoing a commit with a mirror restores the assignment, both sets and every slot list. |
| Search.UndoAfterSingleCommit | Lab_Scheduler.py:186-208 | Undoing a commit without a mirror restores the assignment, both sets and every slot list. |
| Search.CommitEffect | Lab_Scheduler.py:186-198 | The commit enters the candidate under the course's main key and its mirror under the `::Dup` key, and keeps every other course's entries. It takes both sessions' room and lecturer slots, and appends each session's slot index to that lecturer's list for that day. Nothing else changes. |
| Search.UndoEffect | Lab_Scheduler.py:202-213 | The undo removes the main key and, for a paired day, the `::Dup` key, and keeps every other entry. It frees both sessions' room and lecturer slots, and drops the last index of each slot list the commit touched. Nothing else changes. |
| Search.CommitExtends | Lab_Scheduler.py:187-194 | A commit only adds entries. The main entry is the candidate, and every earlier entry is kept unchanged. |
| Search.UndoAfterCommit | Lab_Scheduler.py:186-213 | For courses not yet placed, with free room and lecturer slots, undo is the exact inverse of commit (reading a missing slot list as empty). |
| Search.UndoRespectsRestored | Lab_Scheduler.py:202-213 | Undo gives restored results on restored states, because it reads the slot lists only through their contents. |
| Search.RestoredKeepsInv | Lab_Scheduler.py:161-215 | The invariant depends only on what restoration keeps. |
| Search.RepeatedCourseBreaksUndo | Lab_Scheduler.py:187-202 | With a repeated course code, the commit overwrites the earlier main entry and the undo then drops it, so the state is not restored. |
| Search.SameCourseVacuous | Lab_Scheduler.py:136-158 | During the search a course's own entries are absent when its candidates are checked, so the same-course check always passes. |
| Search.NotYetPlaced | Lab_Scheduler.py:165-187 | A course absent from the courses already placed has neither a main entry nor a `::Dup` entry. |
| Search.CommitKeysFrom | Lab_Scheduler.py:186-198 | After the commit of `order[index]`, every entry belongs to `order[..index + 1]`. |
| Search.UndoAfterFailure | Lab_Scheduler.py:200-213 | After a failed recursion left the committed state restored, the undo gives back the state before the commit, invariant included. |
| Search.SearchState.constructor | Lab_Scheduler.py:223-226 | The search starts with an empty assignment, empty sets and an empty lecturer schedule. |
| Search.SearchState.Admits | Lab_Scheduler.py:170-173 | The four checks, in order: accepts exactly when there is no room conflict, no lecturer conflict, the back-to-back rule allows it, and the same-course rule allows it. |
| Search.SearchState.AdmitsWithMirror | Lab_Scheduler.py:170-184 | Accepts exactly when the candidate passes, and so does its mirror when its day has a partner. |
| Search.SearchState.CommitStep | Lab_Scheduler.py:186-198 | The new state is `Commit` of the old one: main entry, mirror entry, both occupancy sets and both slot lists. |
| Search.SearchState.UndoStep | Lab_Scheduler.py:202-213 | The new state is `Undo` of the old one. |
| Search.SearchState.Backtrack | Lab_Scheduler.py:161-215 | Succeeds immediately with no courses left, and the invariant holds on return. On failure the state is restored to the one on entry. On success, every course from `index` on has a main session from its own domain, every earlier entry is kept, and every key belongs to a listed course. |
| Search.SearchState.TryCandidate | Lab_Scheduler.py:168-213 | One pass of the candidate loop, with the contract of `Backtrack` at this candidate. It succeeds only if the candidate, and its mirror on a paired day, passed all four checks against the state on entry. On success, the course's main entry is that candidate. |
| Solver.InsertBySize | Lab_Scheduler.py:219 | One insertion step of the sort: a permutation of the list plus the new course. |
| Solver.SortByDomainSize | Lab_Scheduler.py:219 | The fail-first order is a permutation of the courses, ascending by domain size. |
| Solver.InsertSorted | Lab_Scheduler.py:219 | Insertion keeps the order ascending by domain size. |
| Solver.InsertStable | Lab_Scheduler.py:219 | Insertion puts the new course before every course of its own size that follows it. |
| Solver.SortStable | Lab_Scheduler.py:219 | The sort is stable: for every size, the courses of that size keep their input order. |
| Solver.InsertDistinct | Lab_Scheduler.py:219 | Inserting a new course into a list of distinct codes keeps the codes distinct. |
| Solver.SortDistinct | Lab_Scheduler.py:219 | Sorting distinct course codes gives distinct codes. |
| Solver.Ungroup | Lab_Scheduler.py:233-240 | The sessions of a grouping: a key is present exactly when its course's group holds a session in that position. |
| Solver.GroupedHoldsEntries | Lab_Scheduler.py:233-240 | Every entry of the assignment sits in its course's group, in the main or `::Dup` position its key names, and no group is empty. |
| Solver.GroupedPlace | Lab_Scheduler.py:235-240 | Grouping one more entry is one append to its course's group. |
| Solver.UngroupGrouped | Lab_Scheduler.py:233-240 | Grouping loses nothing: ungrouping gives back the assignment. |
| Solver.GroupedUngroup | Lab_Scheduler.py:233-240 | A grouping with no empty group is the grouping of its own sessions. |
| Solver.GroupAssignments | Lab_Scheduler.py:233-241 | The grouping loop produces `Grouped` of the assignment, whatever order it visits the keys in. |
| Solver.EmptyStateInv | Lab_Scheduler.py:223-226 | The empty initial state satisfies the search invariant. |
| Solver.SearchResultIsSchedule | Lab_Scheduler.py:229-241 | A successful search over the sorted order, grouped, is a schedule, including the back-to-back limit on the grouped sessions. |
| Solver.GroupedCourses | Lab_Scheduler.py:233-240 | After a successful search, the grouping has exactly one group per listed course. |
| Solver.GroupedEntries | Lab_Scheduler.py:233-240 | After a successful search, every group holds a main session from the course's domain, and exactly its mirror. |
| Solver.Solve | Lab_Scheduler.py:217-241 | With no courses, the result is an empty grouping. A result that is not None has one group per course. Each group holds a main session from the course's domain, and exactly its mirror when the day has a partner. No room or lecturer is booked twice across all sessions. No lecturer's sessions on one day cover more consecutive slots than `max_back_to_back`. |

## Left out

- The Streamlit interface, text inputs, timing, the result tables and the CSV export are not modelled. They are I/O around the engine.
- The optional `random.shuffle` of each domain (lines 249-250) happens before the solver sees the domains, so any order of a domain is covered. The randomness itself is not modelled.
- Building the lecturer roster from the sidebar inputs and placeholders (lines 44-48, 69-78) is not modelled. The roster is a parameter of `GetLecturers`.
- Search.SearchState.TryCandidate: completeness is not proved. The contract allows a pass to fail even when the candidate and its mirror are admissible and the recursive call could succeed.
- Search.SearchState.Backtrack: completeness is not proved. "The search fails only when no schedule exists in domain order" is not stated; only soundness of success and restoration on failure are.
- Solver.Solve: the result is None exactly when the search fails, but this is visible only in the body. The contract does not state when the search fails.
- Solver.Solve: the back-to-back limit on the result is stated on the set of each lecturer-day's slot indices: no block of at least two consecutive indices longer than the limit. Within one lecturer-day these indices are distinct.
- Search.SearchState.Backtrack and Solver.Solve: require a list of distinct course codes, although the course parsing at line 39 does not remove duplicates. With a repeated code the source overwrites the earlier main entry and its undo drops it; `Search.RepeatedCourseBreaksUndo` shows the lost entry.
- Search.SearchState.Backtrack and Solver.Solve require a well-formed calendar. Its days and each day's labels are distinct. Every Mon..Thu label also appears on the partner day; otherwise the source's slot-index lookup at line 198 raises KeyError, which is not modelled.
- Search.SearchState.Backtrack and Solver.Solve require that every domain candidate lies on the calendar; otherwise the lookup at line 190 raises KeyError.
- The nested `defaultdict` `lec_schedule` becomes a map keyed by (lecturer, day). A missing list reads as the empty list. Key presence still matters to the back-to-back check and is modelled: an append creates the key and a pop leaves an empty list in place. Restoration after undo is therefore stated up to "missing equals empty" (`Search.Restored`).
- The grouped result stores a course's main and `::Dup` entries as a `Group` record instead of a list of (key, value) pairs. The dictionary's insertion order puts the main entry first. That order comes from the commit order and is not modelled.
- Domain.BuildDomain: each of the four nested loops is its own method, and the list being built is passed through them as a value instead of being appended to in place.
- Course codes are taken to contain no `"::"`, so `key.split("::")[0]` recovers the course.
