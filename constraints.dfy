/**
 * The four admissibility checks of a candidate against the search state:
 * room occupancy, lecturer occupancy, the back-to-back limit on a lecturer's
 * day, and same-course day-pattern consistency.
 */
module Constraints {
  import opened Calendar
  import opened Domain

  /** Keys of the assignment map. The source keys a course's main session by
      the course code and its mirrored session by the code followed by "::Dup",
      and recovers the course with key.split("::")[0]; Main(c) and Dup(c) are
      those two strings and .course is that split (course codes hold no "::"). */
  datatype Key = Main(course: Course) | Dup(course: Course)

  type RoomSlot = (Day, Timeslot, Lab)
  type LecturerSlot = (Day, Timeslot, Lecturer)
  type Assignment = map<Key, Candidate>

  function RoomOf(c: Candidate): RoomSlot
  {
    (c.day, c.time, c.lab)
  }

  function LecturerSlotOf(c: Candidate): LecturerSlot
  {
    (c.day, c.time, c.lecturer)
  }

  predicate RoomConflict(c: Candidate, rooms: set<RoomSlot>)
  {
    RoomOf(c) in rooms
  }

  predicate LecturerConflict(c: Candidate, lecSlots: set<LecturerSlot>)
  {
    LecturerSlotOf(c) in lecSlots
  }

  /** The occupied (day, time, lab) triples of an assignment. */
  ghost function RoomsOf(a: Assignment): set<RoomSlot>
  {
    set k | k in a :: RoomOf(a[k])
  }

  /** The occupied (day, time, lecturer) triples of an assignment. */
  ghost function LecturerSlotsOf(a: Assignment): set<LecturerSlot>
  {
    set k | k in a :: LecturerSlotOf(a[k])
  }

  /** Checked against the projection of an assignment, the two occupancy checks
      fire exactly when some committed session already holds that room, or that
      lecturer, at that day and time. */
  /** room_conflict against the rooms of an assignment fires exactly when a
      committed session holds that lab at the same day and time. */
  lemma RoomConflictMeansOccupied(c: Candidate, a: Assignment)
    ensures RoomConflict(c, RoomsOf(a)) <==>
              exists k :: k in a && a[k].day == c.day && a[k].time == c.time && a[k].lab == c.lab
  {
    if RoomConflict(c, RoomsOf(a)) {
      var k :| k in a && RoomOf(a[k]) == RoomOf(c);
    }
  }

  /** lecturer_conflict against the lecturer slots of an assignment fires exactly
      when a committed session has that lecturer at the same day and time. */
  lemma LecturerConflictMeansBooked(c: Candidate, a: Assignment)
    ensures LecturerConflict(c, LecturerSlotsOf(a)) <==>
              exists k :: k in a && a[k].day == c.day && a[k].time == c.time && a[k].lecturer == c.lecturer
  {
    if LecturerConflict(c, LecturerSlotsOf(a)) {
      var k :| k in a && LecturerSlotOf(a[k]) == LecturerSlotOf(c);
    }
  }

  // ---------------- sorting the slot indices of a lecturer's day ----------------

  predicate Ascending(s: seq<nat>)
  {
    forall i, j :: 0 <= i < j < |s| ==> s[i] <= s[j]
  }

  function Insert(x: nat, s: seq<nat>): (r: seq<nat>)
    ensures multiset(r) == multiset(s) + multiset{x}
    ensures |r| == |s| + 1
  {
    if s == [] || x <= s[0] then [x] + s
    else
      assert s == [s[0]] + s[1..];
      [s[0]] + Insert(x, s[1..])
  }

  /** A value no larger than every element of an ascending list can go in front of it. */
  lemma AscendingCons(y: nat, t: seq<nat>)
    requires Ascending(t) && forall v :: v in t ==> y <= v
    ensures Ascending([y] + t)
  {
    var r := [y] + t;
    forall i, j | 0 <= i < j < |r| ensures r[i] <= r[j] {
      assert r[j] == t[j - 1] && t[j - 1] in t;
      if i > 0 {
        assert r[i] == t[i - 1];
      }
    }
  }

  lemma {:induction false} InsertAscending(x: nat, s: seq<nat>)
    requires Ascending(s)
    ensures Ascending(Insert(x, s))
  {
    if s == [] || x <= s[0] {
      assert forall v :: v in s ==> s[0] <= v by {
        forall v | v in s ensures s[0] <= v {
          var m :| 0 <= m < |s| && s[m] == v;
        }
      }
      AscendingCons(x, s);
    } else {
      var tail := s[1..];
      assert Ascending(tail) by {
        forall i, j | 0 <= i < j < |tail| ensures tail[i] <= tail[j] {
          assert tail[i] == s[i + 1] && tail[j] == s[j + 1];
        }
      }
      InsertAscending(x, tail);
      var t := Insert(x, tail);
      forall v | v in t ensures s[0] <= v {
        assert v in multiset(t);
        if v != x {
          assert v in multiset(tail);
          var m :| 0 <= m < |tail| && tail[m] == v;
          assert s[m + 1] == v;
        }
      }
      AscendingCons(s[0], t);
    }
  }

  /** The source's sorted(): an ascending permutation of its argument. */
  function SortInts(s: seq<nat>): (r: seq<nat>)
    ensures Ascending(r)
    ensures multiset(r) == multiset(s)
    ensures |r| == |s|
  {
    if s == [] then []
    else
      var t := SortInts(s[1..]);
      InsertAscending(s[0], t);
      HeadAndTail(s);
      Insert(s[0], t)
  }

  lemma HeadAndTail(s: seq<nat>)
    requires s != []
    ensures multiset(s) == multiset(s[1..]) + multiset{s[0]}
  {
    assert s == [s[0]] + s[1..];
  }

  // ---------------- the back-to-back limit ----------------

  /** Positions i .. i+k-1 of e hold k consecutive integers. */
  ghost predicate ConsecutiveRun(e: seq<nat>, i: int, k: int)
  {
    0 <= i && 0 <= k && i + k <= |e| && forall m :: i < m < i + k ==> e[m] == e[m - 1] + 1
  }

  /** e holds a run of at least two consecutive integers that is longer than the limit. */
  ghost predicate HasLongRun(e: seq<nat>, maxRun: int)
  {
    exists i, k :: k >= 2 && k > maxRun && ConsecutiveRun(e, i, k)
  }

  /** The counter of the source's scan at position j: the length of the run of
      consecutive integers that ends at e[j]. */
  function RunLength(e: seq<nat>, j: nat): nat
    requires j < |e|
  {
    if j == 0 then 1
    else if e[j] == e[j - 1] + 1 then RunLength(e, j - 1) + 1
    else 1
  }

  /** The k positions ending at j hold k consecutive integers. */
  ghost predicate RunEndingAt(e: seq<nat>, j: int, k: int)
  {
    ConsecutiveRun(e, j + 1 - k, k)
  }

  /** The run that RunLength counts is a run, and no run ending at j is longer. */
  lemma {:induction false} RunLengthIsLongestRun(e: seq<nat>, j: nat)
    requires j < |e|
    ensures 1 <= RunLength(e, j) <= j + 1
    ensures RunEndingAt(e, j, RunLength(e, j))
    ensures forall k :: 0 < k && RunEndingAt(e, j, k) ==> k <= RunLength(e, j)
  {
    if j > 0 {
      RunLengthIsLongestRun(e, j - 1);
      forall k | 0 < k && RunEndingAt(e, j, k)
        ensures k <= RunLength(e, j)
      {
        if k > 1 {
          assert RunEndingAt(e, j - 1, k - 1);
          assert e[j] == e[j - 1] + 1;
        }
      }
    }
  }

  /** The source's early exit: a counter above the limit means a long run. */
  lemma LongRunAt(e: seq<nat>, j: nat, maxRun: int)
    requires 0 < j < |e| && e[j] == e[j - 1] + 1 && RunLength(e, j) > maxRun
    ensures HasLongRun(e, maxRun)
  {
    RunLengthIsLongestRun(e, j);
    assert ConsecutiveRun(e, j + 1 - RunLength(e, j), RunLength(e, j));
  }

  /** A completed scan, with every counter within the limit, means no long run. */
  lemma NoLongRun(e: seq<nat>, maxRun: int)
    requires forall j :: 0 < j < |e| && e[j] == e[j - 1] + 1 ==> RunLength(e, j) <= maxRun
    ensures !HasLongRun(e, maxRun)
  {
    if HasLongRun(e, maxRun) {
      var i, k :| k >= 2 && k > maxRun && ConsecutiveRun(e, i, k);
      var j := i + k - 1;
      assert RunEndingAt(e, j, k);
      RunLengthIsLongestRun(e, j);
    }
  }

  /** The set holds every index from i to i + k - 1. */
  ghost predicate BlockIn(indices: set<nat>, i: nat, k: nat)
  {
    forall m: nat :: i <= m < i + k ==> m in indices
  }

  /** A set of slot indices holding a block of at least two consecutive
      indices that is longer than the limit. */
  ghost predicate HasRunIn(indices: set<nat>, maxRun: int)
  {
    exists i: nat, k: nat :: k >= 2 && k > maxRun && BlockIn(indices, i, k)
  }

  predicate StrictlyAscending(e: seq<nat>)
  {
    forall i, j :: 0 <= i < j < |e| ==> e[i] < e[j]
  }

  /** A value at two positions occurs at least twice. */
  lemma TwoPositions(e: seq<nat>, i: nat, j: nat)
    requires i < j < |e| && e[i] == e[j]
    ensures multiset(e)[e[j]] >= 2
  {
    assert e == e[..j] + e[j..];
    assert e[i] == e[..j][i] && e[j] == e[j..][0];
    assert multiset(e)[e[j]] == multiset(e[..j])[e[j]] + multiset(e[j..])[e[j]];
  }

  /** An ascending list holding each element of a set once is strictly ascending. */
  lemma AscendingSetIsStrict(e: seq<nat>, indices: set<nat>)
    requires Ascending(e) && multiset(e) == multiset(indices)
    ensures StrictlyAscending(e)
  {
    forall i, j | 0 <= i < j < |e| ensures e[i] < e[j] {
      if e[i] == e[j] {
        TwoPositions(e, i, j);
        assert false;
      }
    }
  }

  /** In a strictly ascending list, the value after v, when v + 1 is present,
      is v + 1. */
  lemma NextIsSuccessor(e: seq<nat>, j: nat, q: nat, v: nat)
    requires StrictlyAscending(e) && j < |e| && q < |e| && e[j] == v && e[q] == v + 1
    ensures j < q && e[j + 1] == v + 1
  {
  }

  lemma ExtendRun(e: seq<nat>, p: nat, k: nat)
    requires k >= 2 && p + k <= |e| && ConsecutiveRun(e, p, k - 1) && e[p + k - 1] == e[p + k - 2] + 1
    ensures ConsecutiveRun(e, p, k)
  {
  }

  /** A block of k consecutive indices in the set is a run of k consecutive
      positions in a strictly ascending list of the set's elements. */
  lemma {:induction false} BlockIsRun(e: seq<nat>, indices: set<nat>, i: nat, k: nat)
    requires StrictlyAscending(e) && forall x :: x in e <==> x in indices
    requires k >= 1 && BlockIn(indices, i, k)
    ensures exists p: nat :: p + k <= |e| && ConsecutiveRun(e, p, k) && e[p + k - 1] == i + k - 1
    decreases k
  {
    if k == 1 {
      assert i in indices;
      var p :| 0 <= p < |e| && e[p] == i;
      assert ConsecutiveRun(e, p, 1);
    } else {
      assert BlockIn(indices, i, k - 1);
      BlockIsRun(e, indices, i, k - 1);
      var p: nat :| p + k - 1 <= |e| && ConsecutiveRun(e, p, k - 1) && e[p + k - 2] == i + k - 2;
      assert i + k - 1 in indices;
      var q :| 0 <= q < |e| && e[q] == i + k - 1;
      NextIsSuccessor(e, p + k - 2, q, i + k - 2);
      ExtendRun(e, p, k);
    }
  }

  /** When the sorted slot list holds no long run, the set of its indices holds
      no block of consecutive indices longer than the limit. */
  lemma NoBlockInSet(e: seq<nat>, indices: set<nat>, maxRun: int)
    requires Ascending(e) && multiset(e) == multiset(indices)
    requires !HasLongRun(e, maxRun)
    ensures !HasRunIn(indices, maxRun)
  {
    AscendingSetIsStrict(e, indices);
    forall x ensures x in e <==> x in indices {
      assert x in e <==> x in multiset(e);
    }
    if HasRunIn(indices, maxRun) {
      var i: nat, k: nat :| k >= 2 && k > maxRun && BlockIn(indices, i, k);
      BlockIsRun(e, indices, i, k);
    }
  }

  type Schedule = map<(Lecturer, Day), seq<nat>>

  /** What back_to_back_ok accepts: a lecturer with no list for that day is
      accepted outright; otherwise the label must be a slot of the day and the
      sorted list with its index added must hold no run longer than the limit. */
  ghost predicate BackToBackAllows(c: Candidate, sched: Schedule, maxRun: int, cal: Calendar)
  {
    (c.lecturer, c.day) !in sched ||
    (SlotIndex(cal, c.day, c.time).Some? &&
     !HasLongRun(SortInts(sched[(c.lecturer, c.day)] + [SlotIndex(cal, c.day, c.time).value]), maxRun))
  }

  /** back_to_back_ok: the counter scan over the sorted slot indices. */
  method BackToBackOk(c: Candidate, sched: Schedule, maxRun: int, cal: Calendar) returns (ok: bool)
    ensures ok <==> BackToBackAllows(c, sched, maxRun, cal)
  {
    var key := (c.lecturer, c.day);
    if key !in sched {
      return true;
    }
    var index := SlotIndex(cal, c.day, c.time);
    if index.None? {
      return false;
    }
    var existing := SortInts(sched[key] + [index.value]);
    var count := 1;
    for i := 1 to |existing|
      invariant count == RunLength(existing, i - 1)
      invariant forall j :: 0 < j < i && existing[j] == existing[j - 1] + 1 ==> RunLength(existing, j) <= maxRun
    {
      if existing[i] == existing[i - 1] + 1 {
        count := count + 1;
        if count > maxRun {
          LongRunAt(existing, i, maxRun);
          return false;
        }
      } else {
        count := 1;
      }
    }
    NoLongRun(existing, maxRun);
    return true;
  }

  // ---------------- same-course consistency ----------------

  /** A session already committed for a course admits another session of it:
      not the same day/time/lab, no MW/TTh mixing, no FriSat mixed with MW or TTh.
      The three rules amount to a different room slot and the same pattern class,
      unless one of the two days is outside Mon..Sat ("Other" never conflicts). */
  predicate Compatible(other: Candidate, c: Candidate): (r: bool)
    ensures r <==>
              RoomOf(other) != RoomOf(c) &&
              (DayPattern(other.day) == DayPattern(c.day) ||
               DayPattern(other.day) == OtherPattern || DayPattern(c.day) == OtherPattern)
  {
    var p, q := DayPattern(other.day), DayPattern(c.day);
    && !(other.day == c.day && other.time == c.time && other.lab == c.lab)
    && !((p == MW && q == TTh) || (p == TTh && q == MW))
    && !((p == FriSat && (q == MW || q == TTh)) || (q == FriSat && (p == MW || p == TTh)))
  }

  /** same_course_consistency: every committed entry whose key belongs to the
      course admits the candidate. */
  predicate SameCourseConsistent(c: Candidate, course: Course, a: Assignment): (r: bool)
    ensures r <==> forall k :: k in a && k.course == course ==>
                     RoomOf(a[k]) != RoomOf(c) &&
                     (DayPattern(a[k].day) == DayPattern(c.day) ||
                      DayPattern(a[k].day) == OtherPattern || DayPattern(c.day) == OtherPattern)
  {
    forall k :: k in a && k.course == course ==> Compatible(a[k], c)
  }

  /** The check only looks at the course's own entries: one that has none admits everything. */
  lemma SameCourseOnlyOwnEntries(c: Candidate, course: Course, a: Assignment)
    ensures SameCourseConsistent(c, course, a) <==>
              forall k :: k in a && (k == Main(course) || k == Dup(course)) ==> Compatible(a[k], c)
  {
    forall k | k in a && k.course == course
      ensures k == Main(course) || k == Dup(course)
    {
      match k
      case Main(_) =>
      case Dup(_) =>
    }
  }
}
