/**
 * The backtracking search: commit of a candidate (and of its mirror on the
 * partner day), recursion to the next course, and undo on failure. The four
 * pieces of search state live in a class whose methods update them in place;
 * State is a value snapshot of them on which commit and undo are specified.
 */
module Search {
  import opened Calendar
  import opened Domain
  import opened Constraints

  /** A snapshot of the search state: the assignment map, room_schedule,
      lec_time_set and lec_schedule (flattened to (lecturer, day) keys). */
  datatype State = State(assignments: Assignment, rooms: set<RoomSlot>,
                         lecSlots: set<LecturerSlot>, schedule: Schedule)

  /** A lecturer's slot list for a day; a missing key reads as the empty list. */
  function SlotsAt(sched: Schedule, key: (Lecturer, Day)): seq<nat>
  {
    if key in sched then sched[key] else []
  }

  /** lec_schedule[lec][day].append(i); the defaultdict creates a missing list. */
  function Append(sched: Schedule, key: (Lecturer, Day), i: nat): Schedule
  {
    sched[key := SlotsAt(sched, key) + [i]]
  }

  /** lec_schedule[lec][day].pop(); the emptied list stays in the map. */
  function PopLast(sched: Schedule, key: (Lecturer, Day)): Schedule
  {
    var slots := SlotsAt(sched, key);
    sched[key := if slots == [] then [] else slots[..|slots| - 1]]
  }

  /** The mirrored session of a candidate: same time, lab and lecturer on the
      partner day, and none for a day without a partner. */
  function PairOf(c: Candidate): (r: Option<Candidate>)
    ensures r.Some? <==> DayPattern(c.day) == MW || DayPattern(c.day) == TTh
    ensures r.Some? ==> r.value.day != c.day && DayPattern(r.value.day) == DayPattern(c.day)
                        && r.value.time == c.time && r.value.lab == c.lab && r.value.lecturer == c.lecturer
  {
    match PairedDay(c.day)
    case None => None
    case Some(p) => Some(c.(day := p))
  }

  function Lookup(a: Assignment, k: Key): Option<Candidate>
  {
    if k in a then Some(a[k]) else None
  }

  function CommitSession(s: State, k: Key, c: Candidate, index: nat): State
  {
    State(s.assignments[k := c], s.rooms + {RoomOf(c)}, s.lecSlots + {LecturerSlotOf(c)},
          Append(s.schedule, (c.lecturer, c.day), index))
  }

  function UndoSession(s: State, k: Key, c: Candidate): State
  {
    State(s.assignments - {k}, s.rooms - {RoomOf(c)}, s.lecSlots - {LecturerSlotOf(c)},
          PopLast(s.schedule, (c.lecturer, c.day)))
  }

  /** Both sessions of a candidate have slot indices (slot_index_map lookups succeed). */
  predicate Indexed(cal: Calendar, c: Candidate)
  {
    SlotIndex(cal, c.day, c.time).Some? &&
    (PairOf(c).Some? ==> SlotIndex(cal, PairOf(c).value.day, PairOf(c).value.time).Some?)
  }

  /** The commit block: the main session under Main(course), then the mirror under Dup(course). */
  function Commit(s: State, course: Course, c: Candidate, cal: Calendar): State
    requires Indexed(cal, c)
  {
    var s1 := CommitSession(s, Main(course), c, SlotIndex(cal, c.day, c.time).value);
    match PairOf(c)
    case None => s1
    case Some(p) => CommitSession(s1, Dup(course), p, SlotIndex(cal, p.day, p.time).value)
  }

  /** The undo block: the main session is taken out first, then the mirror. */
  function Undo(s: State, course: Course, c: Candidate): State
  {
    var s1 := UndoSession(s, Main(course), c);
    match PairOf(c)
    case None => s1
    case Some(p) => UndoSession(s1, Dup(course), p)
  }

  /** What the commit block does: the main session and its mirror are entered
      under their keys, their room and lecturer slots are taken, and their slot
      indices are appended to the lecturer's lists of those days; nothing else changes. */
  lemma CommitEffect(s: State, course: Course, c: Candidate, cal: Calendar)
    requires Indexed(cal, c)
    ensures var r := Commit(s, course, c, cal);
            && r.assignments.Keys == s.assignments.Keys + {Main(course)}
                                     + (if PairOf(c).Some? then {Dup(course)} else {})
            && r.assignments[Main(course)] == c
            && (PairOf(c).Some? ==> r.assignments[Dup(course)] == PairOf(c).value)
            && (forall k :: k in s.assignments && k.course != course ==> r.assignments[k] == s.assignments[k])
            && r.rooms == s.rooms + {RoomOf(c)} + (if PairOf(c).Some? then {RoomOf(PairOf(c).value)} else {})
            && r.lecSlots == s.lecSlots + {LecturerSlotOf(c)}
                             + (if PairOf(c).Some? then {LecturerSlotOf(PairOf(c).value)} else {})
            && forall key :: SlotsAt(r.schedule, key) ==
                 SlotsAt(s.schedule, key)
                 + (if key == (c.lecturer, c.day) then [SlotIndex(cal, c.day, c.time).value] else [])
                 + (if PairOf(c).Some? && key == (c.lecturer, PairOf(c).value.day)
                    then [SlotIndex(cal, PairOf(c).value.day, c.time).value] else [])
  {
  }

  /** What the undo block does: both keys are removed, both room and lecturer
      slots are freed, and the last index of each touched slot list is dropped. */
  lemma UndoEffect(s: State, course: Course, c: Candidate)
    ensures var r := Undo(s, course, c);
            && r.assignments.Keys == s.assignments.Keys - {Main(course)}
                                     - (if PairOf(c).Some? then {Dup(course)} else {})
            && (forall k :: k in r.assignments ==> r.assignments[k] == s.assignments[k])
            && r.rooms == s.rooms - {RoomOf(c)} - (if PairOf(c).Some? then {RoomOf(PairOf(c).value)} else {})
            && r.lecSlots == s.lecSlots - {LecturerSlotOf(c)}
                             - (if PairOf(c).Some? then {LecturerSlotOf(PairOf(c).value)} else {})
            && forall key :: SlotsAt(r.schedule, key) ==
                 var slots := SlotsAt(s.schedule, key);
                 if (key == (c.lecturer, c.day) || (PairOf(c).Some? && key == (c.lecturer, PairOf(c).value.day)))
                    && slots != []
                 then slots[..|slots| - 1] else slots
  {
  }

  /** Equal search states, reading a missing slot list as an empty one. */
  ghost predicate Restored(s: State, t: State)
  {
    && s.assignments == t.assignments
    && s.rooms == t.rooms
    && s.lecSlots == t.lecSlots
    && forall key :: SlotsAt(s.schedule, key) == SlotsAt(t.schedule, key)
  }

  /** The four checks of lines 170-173 (and 181-184 for the mirror). */
  ghost predicate Admissible(s: State, course: Course, c: Candidate, maxRun: int, cal: Calendar)
  {
    && !RoomConflict(c, s.rooms)
    && !LecturerConflict(c, s.lecSlots)
    && BackToBackAllows(c, s.schedule, maxRun, cal)
    && SameCourseConsistent(c, course, s.assignments)
  }

  // ---------------- the invariant of the search state ----------------

  /** No two sessions share a room at a day and time, nor a lecturer. */
  ghost predicate NoDoubleBooking(a: Assignment)
  {
    forall k1, k2 :: k1 in a && k2 in a && k1 != k2 ==>
      RoomOf(a[k1]) != RoomOf(a[k2]) && LecturerSlotOf(a[k1]) != LecturerSlotOf(a[k2])
  }

  /** Every lecturer's day holds no run of consecutive slots longer than the limit. */
  ghost predicate WithinFatigueLimit(sched: Schedule, maxRun: int)
  {
    forall key :: !HasLongRun(SortInts(SlotsAt(sched, key)), maxRun)
  }

  /** A main session on Mon..Thu has its mirror as the Dup entry, a main session
      on any other day has none, and there is no Dup entry without a main one. */
  ghost predicate PairingHolds(a: Assignment)
  {
    && (forall course :: Main(course) in a ==> Lookup(a, Dup(course)) == PairOf(a[Main(course)]))
    && (forall course :: Dup(course) in a ==> Main(course) in a)
  }

  ghost predicate AllOnCalendar(a: Assignment, cal: Calendar)
  {
    forall k :: k in a ==> OnCalendar(cal, a[k].day, a[k].time)
  }

  /** The occupancy part of the invariant: the two sets are exactly the
      projections of the entries, and the entries are conflict-free. */
  ghost predicate OccupancyInv(s: State, cal: Calendar, maxRun: int)
  {
    && s.rooms == RoomsOf(s.assignments)
    && s.lecSlots == LecturerSlotsOf(s.assignments)
    && NoDoubleBooking(s.assignments)
    && AllOnCalendar(s.assignments, cal)
    && WithinFatigueLimit(s.schedule, maxRun)
  }

  /** The slot indices of the sessions a lecturer gives on a day. */
  ghost function IndicesOf(a: Assignment, key: (Lecturer, Day), cal: Calendar): set<nat>
  {
    set k | k in a && (a[k].lecturer, a[k].day) == key && SlotIndex(cal, a[k].day, a[k].time).Some?
      :: SlotIndex(cal, a[k].day, a[k].time).value
  }

  /** Each lecturer-day slot list holds exactly the slot indices of that
      lecturer's sessions on that day, each once. */
  ghost predicate ScheduleMatches(s: State, cal: Calendar)
  {
    forall key :: multiset(SlotsAt(s.schedule, key)) == multiset(IndicesOf(s.assignments, key, cal))
  }

  ghost predicate Inv(s: State, cal: Calendar, maxRun: int)
  {
    OccupancyInv(s, cal, maxRun) && PairingHolds(s.assignments) && ScheduleMatches(s, cal)
  }

  // ---------------- lemmas about commit and undo ----------------

  lemma PairOfProperties(c: Candidate)
    ensures PairOf(c).Some? ==>
              PairOf(c).value.day != c.day && RoomOf(PairOf(c).value) != RoomOf(c)
              && LecturerSlotOf(PairOf(c).value) != LecturerSlotOf(c)
  {
    PairedDayInvolution(c.day);
  }

  lemma WellFormedPair(cal: Calendar, c: Candidate)
    requires WellFormedCalendar(cal)
    requires OnCalendar(cal, c.day, c.time)
    ensures PairOf(c).Some? ==> OnCalendar(cal, PairOf(c).value.day, PairOf(c).value.time)
    ensures Indexed(cal, c)
  {
    var i :| 0 <= i < |cal| && cal[i] == (c.day, SlotsOf(cal, c.day).value);
    SlotIndexOnCalendar(cal, c.day, c.time, c.time);
    if PairOf(c).Some? {
      var p := PairOf(c).value;
      assert OnCalendar(cal, p.day, p.time);
      SlotIndexOnCalendar(cal, p.day, p.time, p.time);
    }
  }

  /** The projections of an assignment grow by exactly the new session. */
  lemma ProjectionsOfInsert(a: Assignment, k: Key, c: Candidate)
    requires k !in a
    ensures RoomsOf(a[k := c]) == RoomsOf(a) + {RoomOf(c)}
    ensures LecturerSlotsOf(a[k := c]) == LecturerSlotsOf(a) + {LecturerSlotOf(c)}
  {
    var a' := a[k := c];
    forall r | r in RoomsOf(a') ensures r in RoomsOf(a) + {RoomOf(c)} {
      var k' :| k' in a' && RoomOf(a'[k']) == r;
      if k' != k { assert RoomOf(a[k']) == r; }
    }
    forall r | r in RoomsOf(a) ensures r in RoomsOf(a') {
      var k' :| k' in a && RoomOf(a[k']) == r;
      assert a'[k'] == a[k'];
    }
    assert RoomOf(a'[k]) == RoomOf(c);
    forall r | r in LecturerSlotsOf(a') ensures r in LecturerSlotsOf(a) + {LecturerSlotOf(c)} {
      var k' :| k' in a' && LecturerSlotOf(a'[k']) == r;
      if k' != k { assert LecturerSlotOf(a[k']) == r; }
    }
    forall r | r in LecturerSlotsOf(a) ensures r in LecturerSlotsOf(a') {
      var k' :| k' in a && LecturerSlotOf(a[k']) == r;
      assert a'[k'] == a[k'];
    }
    assert LecturerSlotOf(a'[k]) == LecturerSlotOf(c);
  }

  /** An entry whose room and lecturer triples are free keeps the assignment
      free of double booking. */
  lemma InsertKeepsNoDoubleBooking(a: Assignment, k: Key, c: Candidate)
    requires NoDoubleBooking(a) && k !in a
    requires RoomOf(c) !in RoomsOf(a) && LecturerSlotOf(c) !in LecturerSlotsOf(a)
    ensures NoDoubleBooking(a[k := c])
  {
    var a' := a[k := c];
    forall k1, k2 | k1 in a' && k2 in a' && k1 != k2
      ensures RoomOf(a'[k1]) != RoomOf(a'[k2]) && LecturerSlotOf(a'[k1]) != LecturerSlotOf(a'[k2])
    {
      if k1 == k {
        assert RoomOf(a[k2]) in RoomsOf(a) && LecturerSlotOf(a[k2]) in LecturerSlotsOf(a);
      } else if k2 == k {
        assert RoomOf(a[k1]) in RoomsOf(a) && LecturerSlotOf(a[k1]) in LecturerSlotsOf(a);
      }
    }
  }

  /** An append that the back-to-back check allowed keeps every lecturer-day within the limit. */
  lemma AppendKeepsFatigue(sched: Schedule, key: (Lecturer, Day), index: nat, maxRun: int)
    requires WithinFatigueLimit(sched, maxRun)
    requires key in sched ==> !HasLongRun(SortInts(sched[key] + [index]), maxRun)
    ensures WithinFatigueLimit(Append(sched, key, index), maxRun)
  {
    var sched' := Append(sched, key, index);
    forall key' ensures !HasLongRun(SortInts(SlotsAt(sched', key')), maxRun) {
      SlotsAtAppend(sched, key, index, key');
      if key' == key && key !in sched {
        assert SlotsAt(sched', key) == [index];
        assert SortInts([index]) == [index];
      }
    }
  }

  /** One admissible session keeps the occupancy invariant. */
  lemma CommitSessionKeepsOccupancy(s: State, k: Key, c: Candidate, cal: Calendar, maxRun: int)
    requires OccupancyInv(s, cal, maxRun)
    requires k !in s.assignments
    requires OnCalendar(cal, c.day, c.time) && SlotIndex(cal, c.day, c.time).Some?
    requires !RoomConflict(c, s.rooms) && !LecturerConflict(c, s.lecSlots)
    requires BackToBackAllows(c, s.schedule, maxRun, cal)
    ensures OccupancyInv(CommitSession(s, k, c, SlotIndex(cal, c.day, c.time).value), cal, maxRun)
  {
    var index := SlotIndex(cal, c.day, c.time).value;
    ProjectionsOfInsert(s.assignments, k, c);
    InsertKeepsNoDoubleBooking(s.assignments, k, c);
    AppendKeepsFatigue(s.schedule, (c.lecturer, c.day), index, maxRun);
  }

  /** The Dup entry that a commit writes is the mirror of its main entry. */
  lemma CommitKeepsPairing(s: State, course: Course, c: Candidate, cal: Calendar)
    requires Indexed(cal, c) && PairingHolds(s.assignments)
    requires Main(course) !in s.assignments && Dup(course) !in s.assignments
    ensures PairingHolds(Commit(s, course, c, cal).assignments)
  {
    var a := s.assignments;
    var a1 := a[Main(course) := c];
    var a' := Commit(s, course, c, cal).assignments;
    assert a' == if PairOf(c).Some? then a1[Dup(course) := PairOf(c).value] else a1;
    forall other | Main(other) in a'
      ensures Lookup(a', Dup(other)) == PairOf(a'[Main(other)])
    {
      if other != course {
        assert Main(other) in a && a'[Main(other)] == a[Main(other)];
        assert Dup(other) in a' <==> Dup(other) in a;
        if Dup(other) in a {
          assert a'[Dup(other)] == a[Dup(other)];
        }
      }
    }
    forall other | Dup(other) in a' ensures Main(other) in a' {
      if other != course {
        assert Dup(other) in a;
      }
    }
  }

  /** A new entry adds its slot index to the indices of its own lecturer-day and
      leaves every other lecturer-day's indices alone. */
  lemma IndicesOfInsert(a: Assignment, k: Key, c: Candidate, cal: Calendar, key: (Lecturer, Day))
    requires k !in a && SlotIndex(cal, c.day, c.time).Some?
    ensures IndicesOf(a[k := c], key, cal) ==
              IndicesOf(a, key, cal) + if key == (c.lecturer, c.day) then {SlotIndex(cal, c.day, c.time).value} else {}
  {
    var a' := a[k := c];
    forall i | i in IndicesOf(a', key, cal)
      ensures i in IndicesOf(a, key, cal) + if key == (c.lecturer, c.day) then {SlotIndex(cal, c.day, c.time).value} else {}
    {
      var k' :| k' in a' && (a'[k'].lecturer, a'[k'].day) == key && SlotIndex(cal, a'[k'].day, a'[k'].time).Some?
                && SlotIndex(cal, a'[k'].day, a'[k'].time).value == i;
      if k' != k {
        assert a'[k'] == a[k'];
      }
    }
    forall i | i in IndicesOf(a, key, cal) ensures i in IndicesOf(a', key, cal) {
      var k' :| k' in a && (a[k'].lecturer, a[k'].day) == key && SlotIndex(cal, a[k'].day, a[k'].time).Some?
                && SlotIndex(cal, a[k'].day, a[k'].time).value == i;
      assert a'[k'] == a[k'];
    }
    if key == (c.lecturer, c.day) {
      assert a'[k] == c;
    }
  }

  /** A session whose lecturer is free at its day and time takes a slot index
      that lecturer does not yet use that day. */
  lemma FreshIndex(a: Assignment, c: Candidate, cal: Calendar)
    requires WellFormedCalendar(cal) && AllOnCalendar(a, cal) && OnCalendar(cal, c.day, c.time)
    requires LecturerSlotOf(c) !in LecturerSlotsOf(a)
    ensures SlotIndex(cal, c.day, c.time).Some?
    ensures SlotIndex(cal, c.day, c.time).value !in IndicesOf(a, (c.lecturer, c.day), cal)
  {
    SlotIndexOnCalendar(cal, c.day, c.time, c.time);
  }

  /** One session whose lecturer is free keeps every slot list equal to the
      indices of its lecturer-day. */
  lemma CommitSessionKeepsMatch(s: State, k: Key, c: Candidate, cal: Calendar)
    requires WellFormedCalendar(cal) && ScheduleMatches(s, cal) && k !in s.assignments
    requires AllOnCalendar(s.assignments, cal) && OnCalendar(cal, c.day, c.time)
    requires s.lecSlots == LecturerSlotsOf(s.assignments) && !LecturerConflict(c, s.lecSlots)
    ensures SlotIndex(cal, c.day, c.time).Some?
    ensures ScheduleMatches(CommitSession(s, k, c, SlotIndex(cal, c.day, c.time).value), cal)
  {
    FreshIndex(s.assignments, c, cal);
    var i := SlotIndex(cal, c.day, c.time).value;
    forall key ensures multiset(SlotsAt(Append(s.schedule, (c.lecturer, c.day), i), key))
                       == multiset(IndicesOf(s.assignments[k := c], key, cal)) {
      KeyMatchAfterInsert(s, k, c, cal, key);
    }
  }

  /** The matching of one lecturer-day after one new session, whose index is fresh there. */
  lemma KeyMatchAfterInsert(s: State, k: Key, c: Candidate, cal: Calendar, key: (Lecturer, Day))
    requires ScheduleMatches(s, cal) && k !in s.assignments
    requires SlotIndex(cal, c.day, c.time).Some?
    requires SlotIndex(cal, c.day, c.time).value !in IndicesOf(s.assignments, (c.lecturer, c.day), cal)
    ensures multiset(SlotsAt(Append(s.schedule, (c.lecturer, c.day), SlotIndex(cal, c.day, c.time).value), key))
            == multiset(IndicesOf(s.assignments[k := c], key, cal))
  {
    var i := SlotIndex(cal, c.day, c.time).value;
    var key0 := (c.lecturer, c.day);
    SlotsAtAppend(s.schedule, key0, i, key);
    IndicesOfInsert(s.assignments, k, c, cal, key);
    assert multiset(SlotsAt(s.schedule, key)) == multiset(IndicesOf(s.assignments, key, cal));
    if key == key0 {
      ExtendMatch(SlotsAt(s.schedule, key0), IndicesOf(s.assignments, key0, cal), i);
    }
  }

  /** A list matching a set still matches it once a fresh element is added to both. */
  lemma ExtendMatch(xs: seq<nat>, indices: set<nat>, i: nat)
    requires multiset(xs) == multiset(indices) && i !in indices
    ensures multiset(xs + [i]) == multiset(indices + {i})
  {
    assert multiset(indices + {i}) == multiset(indices) + multiset{i};
  }

  /** A commit whose candidate and mirror passed the checks keeps the slot lists
      matched to the sessions. */
  lemma CommitKeepsMatch(s: State, course: Course, c: Candidate, cal: Calendar, maxRun: int)
    requires OccupancyInv(s, cal, maxRun) && ScheduleMatches(s, cal) && WellFormedCalendar(cal)
    requires Main(course) !in s.assignments && Dup(course) !in s.assignments
    requires OnCalendar(cal, c.day, c.time)
    requires Admissible(s, course, c, maxRun, cal)
    requires PairOf(c).Some? ==> Admissible(s, course, PairOf(c).value, maxRun, cal)
    ensures Indexed(cal, c)
    ensures ScheduleMatches(Commit(s, course, c, cal), cal)
  {
    WellFormedPair(cal, c);
    PairOfProperties(c);
    CommitSessionKeepsMatch(s, Main(course), c, cal);
    CommitSessionKeepsOccupancy(s, Main(course), c, cal, maxRun);
    if PairOf(c).Some? {
      var p := PairOf(c).value;
      var s1 := CommitSession(s, Main(course), c, SlotIndex(cal, c.day, c.time).value);
      assert !LecturerConflict(p, s1.lecSlots);
      CommitSessionKeepsMatch(s1, Dup(course), p, cal);
    }
  }

  /** The limit, stated on the sessions: no lecturer has a block of consecutive
      slot indices on one day that is longer than the limit. */
  lemma FatigueOnSessions(s: State, cal: Calendar, maxRun: int)
    requires Inv(s, cal, maxRun)
    ensures forall key :: !HasRunIn(IndicesOf(s.assignments, key, cal), maxRun)
  {
    forall key ensures !HasRunIn(IndicesOf(s.assignments, key, cal), maxRun) {
      var e := SortInts(SlotsAt(s.schedule, key));
      NoBlockInSet(e, IndicesOf(s.assignments, key, cal), maxRun);
    }
  }

  /** A commit of an admissible candidate whose mirror is admissible too keeps
      the whole invariant, pairing included. */
  lemma CommitKeepsInv(s: State, course: Course, c: Candidate, cal: Calendar, maxRun: int)
    requires Inv(s, cal, maxRun) && WellFormedCalendar(cal)
    requires Main(course) !in s.assignments && Dup(course) !in s.assignments
    requires OnCalendar(cal, c.day, c.time)
    requires Admissible(s, course, c, maxRun, cal)
    requires PairOf(c).Some? ==> Admissible(s, course, PairOf(c).value, maxRun, cal)
    ensures Indexed(cal, c)
    ensures Inv(Commit(s, course, c, cal), cal, maxRun)
  {
    WellFormedPair(cal, c);
    CommitKeepsPairing(s, course, c, cal);
    CommitKeepsOccupancy(s, course, c, cal, maxRun);
    CommitKeepsMatch(s, course, c, cal, maxRun);
  }

  lemma CommitKeepsOccupancy(s: State, course: Course, c: Candidate, cal: Calendar, maxRun: int)
    requires OccupancyInv(s, cal, maxRun) && WellFormedCalendar(cal)
    requires Main(course) !in s.assignments && Dup(course) !in s.assignments
    requires OnCalendar(cal, c.day, c.time)
    requires Admissible(s, course, c, maxRun, cal)
    requires PairOf(c).Some? ==> Admissible(s, course, PairOf(c).value, maxRun, cal)
    ensures Indexed(cal, c)
    ensures OccupancyInv(Commit(s, course, c, cal), cal, maxRun)
  {
    WellFormedPair(cal, c);
    PairOfProperties(c);
    var s1 := CommitSession(s, Main(course), c, SlotIndex(cal, c.day, c.time).value);
    CommitSessionKeepsOccupancy(s, Main(course), c, cal, maxRun);
    if PairOf(c).Some? {
      var p := PairOf(c).value;
      var key := (p.lecturer, p.day);
      assert SlotsAt(s1.schedule, key) == SlotsAt(s.schedule, key);
      assert key in s1.schedule <==> key in s.schedule;
      assert BackToBackAllows(p, s1.schedule, maxRun, cal);
      CommitSessionKeepsOccupancy(s1, Dup(course), p, cal, maxRun);
    }
  }

  lemma SetUndo<T>(r: set<T>, x: T, y: T)
    requires x !in r && y !in r
    ensures r + {x} + {y} - {x} - {y} == r
  {
  }

  lemma SlotsAtAppend(sched: Schedule, key: (Lecturer, Day), i: nat, k: (Lecturer, Day))
    ensures SlotsAt(Append(sched, key, i), k) == if k == key then SlotsAt(sched, key) + [i] else SlotsAt(sched, k)
  {
  }

  lemma SlotsAtPopLast(sched: Schedule, key: (Lecturer, Day), k: (Lecturer, Day))
    ensures SlotsAt(PopLast(sched, key), k) ==
              if k != key then SlotsAt(sched, k)
              else if SlotsAt(sched, key) == [] then []
              else SlotsAt(sched, key)[..|SlotsAt(sched, key)| - 1]
  {
  }

  /** Two appends to different lecturer-days, then the two pops, leave every slot list as it was. */
  lemma ScheduleUndo(sched: Schedule, k1: (Lecturer, Day), i1: nat, k2: (Lecturer, Day), i2: nat)
    requires k1 != k2
    ensures forall k :: SlotsAt(PopLast(PopLast(Append(Append(sched, k1, i1), k2, i2), k1), k2), k)
                        == SlotsAt(sched, k)
  {
    var s1 := Append(sched, k1, i1);
    var s2 := Append(s1, k2, i2);
    var s3 := PopLast(s2, k1);
    forall k ensures SlotsAt(PopLast(s3, k2), k) == SlotsAt(sched, k) {
      SlotsAtAppend(sched, k1, i1, k);
      SlotsAtAppend(sched, k1, i1, k2);
      SlotsAtAppend(s1, k2, i2, k);
      SlotsAtAppend(s1, k2, i2, k1);
      SlotsAtAppend(s1, k2, i2, k2);
      SlotsAtPopLast(s2, k1, k);
      SlotsAtPopLast(s2, k1, k2);
      SlotsAtPopLast(s3, k2, k);
      if k == k1 {
        assert (SlotsAt(sched, k1) + [i1])[..|SlotsAt(sched, k1)|] == SlotsAt(sched, k1);
      } else if k == k2 {
        assert (SlotsAt(sched, k2) + [i2])[..|SlotsAt(sched, k2)|] == SlotsAt(sched, k2);
      }
    }
  }

  /** One append then its pop leaves every slot list as it was. */
  lemma ScheduleUndoOne(sched: Schedule, k1: (Lecturer, Day), i1: nat)
    ensures forall k :: SlotsAt(PopLast(Append(sched, k1, i1), k1), k) == SlotsAt(sched, k)
  {
    var s1 := Append(sched, k1, i1);
    forall k ensures SlotsAt(PopLast(s1, k1), k) == SlotsAt(sched, k) {
      SlotsAtAppend(sched, k1, i1, k);
      SlotsAtAppend(sched, k1, i1, k1);
      SlotsAtPopLast(s1, k1, k);
      if k == k1 {
        assert (SlotsAt(sched, k1) + [i1])[..|SlotsAt(sched, k1)|] == SlotsAt(sched, k1);
      }
    }
  }

  lemma PopLastRespects(s: Schedule, t: Schedule, key: (Lecturer, Day))
    requires forall k :: SlotsAt(s, k) == SlotsAt(t, k)
    ensures forall k :: SlotsAt(PopLast(s, key), k) == SlotsAt(PopLast(t, key), k)
  {
    forall k ensures SlotsAt(PopLast(s, key), k) == SlotsAt(PopLast(t, key), k) {
      assert SlotsAt(s, key) == SlotsAt(t, key);
      assert SlotsAt(s, k) == SlotsAt(t, k);
    }
  }

  lemma MapUndo(a: Assignment, k1: Key, c1: Candidate, k2: Key, c2: Candidate)
    requires k1 != k2 && k1 !in a && k2 !in a
    ensures a[k1 := c1][k2 := c2] - {k1} - {k2} == a
  {
  }

  /** Both sessions of a paired commit are taken back out by the undo. */
  lemma UndoAfterPairedCommit(s: State, course: Course, c: Candidate, p: Candidate, i1: nat, i2: nat)
    requires p.day != c.day
    requires Main(course) !in s.assignments && Dup(course) !in s.assignments
    requires RoomOf(c) !in s.rooms && LecturerSlotOf(c) !in s.lecSlots
    requires RoomOf(p) !in s.rooms && LecturerSlotOf(p) !in s.lecSlots
    ensures Restored(s, UndoSession(UndoSession(CommitSession(CommitSession(s, Main(course), c, i1), Dup(course), p, i2),
                                                Main(course), c), Dup(course), p))
  {
    var k1, k2 := (c.lecturer, c.day), (p.lecturer, p.day);
    MapUndo(s.assignments, Main(course), c, Dup(course), p);
    SetUndo(s.rooms, RoomOf(c), RoomOf(p));
    SetUndo(s.lecSlots, LecturerSlotOf(c), LecturerSlotOf(p));
    ScheduleUndo(s.schedule, k1, i1, k2, i2);
  }

  lemma UndoAfterSingleCommit(s: State, course: Course, c: Candidate, i1: nat)
    requires Main(course) !in s.assignments
    requires RoomOf(c) !in s.rooms && LecturerSlotOf(c) !in s.lecSlots
    ensures Restored(s, UndoSession(CommitSession(s, Main(course), c, i1), Main(course), c))
  {
    assert s.assignments[Main(course) := c] - {Main(course)} == s.assignments;
    ScheduleUndoOne(s.schedule, (c.lecturer, c.day), i1);
  }

  /** A commit only adds entries: the main one is the candidate, and nothing
      committed before is changed. */
  lemma CommitExtends(s: State, course: Course, c: Candidate, cal: Calendar)
    requires Indexed(cal, c)
    requires Main(course) !in s.assignments && Dup(course) !in s.assignments
    ensures var a := Commit(s, course, c, cal).assignments;
            Main(course) in a && a[Main(course)] == c &&
            forall k :: k in s.assignments ==> k in a && a[k] == s.assignments[k]
  {
  }

  /** Undo of a commit of an admissible candidate gives back the state before it. */
  lemma UndoAfterCommit(s: State, course: Course, c: Candidate, cal: Calendar)
    requires Indexed(cal, c)
    requires Main(course) !in s.assignments && Dup(course) !in s.assignments
    requires RoomOf(c) !in s.rooms && LecturerSlotOf(c) !in s.lecSlots
    requires PairOf(c).Some? ==>
               RoomOf(PairOf(c).value) !in s.rooms && LecturerSlotOf(PairOf(c).value) !in s.lecSlots
    ensures Restored(s, Undo(Commit(s, course, c, cal), course, c))
  {
    PairOfProperties(c);
    var i1 := SlotIndex(cal, c.day, c.time).value;
    match PairOf(c)
    case None =>
      UndoAfterSingleCommit(s, course, c, i1);
    case Some(p) =>
      UndoAfterPairedCommit(s, course, c, p, i1, SlotIndex(cal, p.day, p.time).value);
  }

  /** Undo only reads the slot lists through SlotsAt, so it respects Restored. */
  lemma UndoRespectsRestored(s: State, t: State, course: Course, c: Candidate)
    requires Restored(s, t)
    ensures Restored(Undo(s, course, c), Undo(t, course, c))
  {
    PopLastRespects(s.schedule, t.schedule, (c.lecturer, c.day));
    if PairOf(c).Some? {
      var p := PairOf(c).value;
      PopLastRespects(PopLast(s.schedule, (c.lecturer, c.day)), PopLast(t.schedule, (c.lecturer, c.day)),
                      (p.lecturer, p.day));
    }
  }

  /** The invariant reads the slot lists through SlotsAt, so it survives Restored. */
  lemma RestoredKeepsInv(s: State, t: State, cal: Calendar, maxRun: int)
    requires Inv(s, cal, maxRun) && Restored(s, t)
    ensures Inv(t, cal, maxRun)
  {
    forall key ensures !HasLongRun(SortInts(SlotsAt(t.schedule, key)), maxRun) {
      assert SlotsAt(t.schedule, key) == SlotsAt(s.schedule, key);
    }
    forall key ensures multiset(SlotsAt(t.schedule, key)) == multiset(IndicesOf(t.assignments, key, cal)) {
      assert SlotsAt(t.schedule, key) == SlotsAt(s.schedule, key);
    }
  }

  /** With a repeated course code the commit overwrites the earlier main entry
      and the undo then drops it: commit and undo are no longer inverses. */
  lemma RepeatedCourseBreaksUndo(s: State, course: Course, c: Candidate, cal: Calendar)
    requires Indexed(cal, c)
    requires Main(course) in s.assignments
    ensures Main(course) !in Undo(Commit(s, course, c, cal), course, c).assignments
    ensures !Restored(s, Undo(Commit(s, course, c, cal), course, c))
  {
  }

  /** While the search runs, a course's own entries are never committed when its
      frame checks it, so the same-course check always passes. */
  lemma SameCourseVacuous(s: State, course: Course, c: Candidate)
    requires Main(course) !in s.assignments && Dup(course) !in s.assignments
    ensures SameCourseConsistent(c, course, s.assignments)
  {
    SameCourseOnlyOwnEntries(c, course, s.assignments);
  }

  /** After a commit whose recursion failed and left the committed state
      restored, undoing the commit gives back the state before it, invariant included. */
  lemma UndoAfterFailure(before: State, committed: State, now: State, course: Course, c: Candidate,
                         cal: Calendar, maxRun: int)
    requires Inv(before, cal, maxRun) && Indexed(cal, c)
    requires Main(course) !in before.assignments && Dup(course) !in before.assignments
    requires Admissible(before, course, c, maxRun, cal)
    requires PairOf(c).Some? ==> Admissible(before, course, PairOf(c).value, maxRun, cal)
    requires committed == Commit(before, course, c, cal)
    requires Restored(committed, now)
    ensures Restored(before, Undo(now, course, c))
    ensures Inv(Undo(now, course, c), cal, maxRun)
  {
    UndoAfterCommit(before, course, c, cal);
    UndoRespectsRestored(committed, now, course, c);
    RestoredKeepsInv(before, Undo(now, course, c), cal, maxRun);
  }

  // ---------------- the search ----------------

  predicate Distinct(order: seq<Course>)
  {
    forall i, j :: 0 <= i < j < |order| ==> order[i] != order[j]
  }

  /** Every course to schedule has a domain, all of whose candidates lie on the calendar. */
  ghost predicate DomainsOnCalendar(order: seq<Course>, domains: map<Course, seq<Candidate>>, cal: Calendar)
  {
    forall course :: course in order ==>
      course in domains && forall c :: c in domains[course] ==> OnCalendar(cal, c.day, c.time)
  }

  /** Every entry belongs to one of the given courses. */
  ghost predicate KeysFrom(a: Assignment, courses: seq<Course>)
  {
    forall k :: k in a ==> k.course in courses
  }

  /** A course not in the list whose courses own all entries has no entry yet. */
  lemma NotYetPlaced(a: Assignment, prefix: seq<Course>, course: Course)
    requires KeysFrom(a, prefix) && course !in prefix
    ensures Main(course) !in a && Dup(course) !in a
  {
  }

  /** After the commit of order[index], the entries belong to order[..index + 1]. */
  lemma CommitKeysFrom(s: State, order: seq<Course>, index: nat, c: Candidate, cal: Calendar)
    requires index < |order| && Indexed(cal, c)
    requires KeysFrom(s.assignments, order[..index])
    ensures KeysFrom(Commit(s, order[index], c, cal).assignments, order[..index + 1])
  {
    assert order[..index + 1] == order[..index] + [order[index]];
    var a := Commit(s, order[index], c, cal).assignments;
    forall k | k in a ensures k.course in order[..index + 1] {
      if k != Main(order[index]) && k != Dup(order[index]) {
        assert k in s.assignments;
      }
    }
  }

  class SearchState {
    var assignments: Assignment
    var roomSchedule: set<RoomSlot>
    var lecTimeSet: set<LecturerSlot>
    var lecSchedule: Schedule

    function View(): State
      reads this
    {
      State(assignments, roomSchedule, lecTimeSet, lecSchedule)
    }

    /** A fresh, empty search state, as solve_backtracking_paired creates it. */
    constructor ()
      ensures View() == State(map[], {}, {}, map[])
    {
      assignments := map[];
      roomSchedule := {};
      lecTimeSet := {};
      lecSchedule := map[];
    }

    /** The four checks, in the source's order, against the current state. */
    method Admits(c: Candidate, course: Course, maxRun: int, cal: Calendar) returns (ok: bool)
      ensures ok <==> Admissible(View(), course, c, maxRun, cal)
    {
      if RoomConflict(c, roomSchedule) { return false; }
      if LecturerConflict(c, lecTimeSet) { return false; }
      ok := BackToBackOk(c, lecSchedule, maxRun, cal);
      if !ok { return false; }
      ok := SameCourseConsistent(c, course, assignments);
    }

    /** The checks of lines 170-184: the candidate, then its mirror if its day has a partner. */
    method AdmitsWithMirror(c: Candidate, course: Course, maxRun: int, cal: Calendar) returns (ok: bool)
      ensures ok <==> Admissible(View(), course, c, maxRun, cal) &&
                      (PairOf(c).Some? ==> Admissible(View(), course, PairOf(c).value, maxRun, cal))
    {
      ok := Admits(c, course, maxRun, cal);
      if ok && PairOf(c).Some? {
        ok := Admits(PairOf(c).value, course, maxRun, cal);
      }
    }

    /** Lines 186-198: record the main session and, on Mon..Thu, its mirror. */
    method CommitStep(course: Course, c: Candidate, cal: Calendar)
      requires Indexed(cal, c)
      modifies this
      ensures View() == Commit(old(View()), course, c, cal)
    {
      assignments := assignments[Main(course) := c];
      roomSchedule := roomSchedule + {RoomOf(c)};
      lecTimeSet := lecTimeSet + {LecturerSlotOf(c)};
      lecSchedule := Append(lecSchedule, (c.lecturer, c.day), SlotIndex(cal, c.day, c.time).value);
      match PairOf(c)
      case None =>
      case Some(p) =>
        assignments := assignments[Dup(course) := p];
        roomSchedule := roomSchedule + {RoomOf(p)};
        lecTimeSet := lecTimeSet + {LecturerSlotOf(p)};
        lecSchedule := Append(lecSchedule, (p.lecturer, p.day), SlotIndex(cal, p.day, p.time).value);
    }

    /** Lines 204-213: take both sessions out again. */
    method UndoStep(course: Course, c: Candidate)
      modifies this
      ensures View() == Undo(old(View()), course, c)
    {
      assignments := assignments - {Main(course)};
      roomSchedule := roomSchedule - {RoomOf(c)};
      lecTimeSet := lecTimeSet - {LecturerSlotOf(c)};
      lecSchedule := PopLast(lecSchedule, (c.lecturer, c.day));
      match PairOf(c)
      case None =>
      case Some(p) =>
        assignments := assignments - {Dup(course)};
        roomSchedule := roomSchedule - {RoomOf(p)};
        lecTimeSet := lecTimeSet - {LecturerSlotOf(p)};
        lecSchedule := PopLast(lecSchedule, (p.lecturer, p.day));
    }

    /** backtrack_assign: try the candidates of order[index] in domain order;
        on success every remaining course has a main session drawn from its
        domain and nothing committed before is lost; on failure the state is
        what it was on entry. The invariant holds either way. */
    method Backtrack(index: nat, order: seq<Course>, domains: map<Course, seq<Candidate>>,
                     cal: Calendar, maxRun: int) returns (ok: bool)
      requires index <= |order| && Distinct(order)
      requires WellFormedCalendar(cal) && DomainsOnCalendar(order, domains, cal)
      requires Inv(View(), cal, maxRun)
      requires KeysFrom(assignments, order[..index])
      modifies this
      ensures Inv(View(), cal, maxRun)
      ensures index == |order| ==> ok
      ensures !ok ==> Restored(old(View()), View())
      ensures ok ==> KeysFrom(assignments, order)
      ensures ok ==> forall k :: k in old(assignments) ==> k in assignments && assignments[k] == old(assignments)[k]
      ensures ok ==> forall j :: index <= j < |order| ==>
                       Main(order[j]) in assignments && assignments[Main(order[j])] in domains[order[j]]
      decreases |order| - index, 1
    {
      if index >= |order| {
        assert order[..index] == order;
        return true;
      }
      var domain := domains[order[index]];
      for i := 0 to |domain|
        invariant Inv(View(), cal, maxRun)
        invariant Restored(old(View()), View())
      {
        ok := TryCandidate(index, order, domains, cal, maxRun, domain[i]);
        if ok {
          return;
        }
      }
      return false;
    }

    /** One pass of the candidate loop (lines 169-213): the checks on the
        candidate and its mirror, the commit, the recursive call, the undo. */
    method TryCandidate(index: nat, order: seq<Course>, domains: map<Course, seq<Candidate>>,
                        cal: Calendar, maxRun: int, c: Candidate) returns (ok: bool)
      requires index < |order| && Distinct(order)
      requires WellFormedCalendar(cal) && DomainsOnCalendar(order, domains, cal)
      requires c in domains[order[index]]
      requires Inv(View(), cal, maxRun)
      requires KeysFrom(assignments, order[..index])
      modifies this
      ensures Inv(View(), cal, maxRun)
      ensures !ok ==> Restored(old(View()), View())
      ensures ok ==> Admissible(old(View()), order[index], c, maxRun, cal)
      ensures ok && PairOf(c).Some? ==> Admissible(old(View()), order[index], PairOf(c).value, maxRun, cal)
      ensures ok ==> KeysFrom(assignments, order)
      ensures ok ==> forall k :: k in old(assignments) ==> k in assignments && assignments[k] == old(assignments)[k]
      ensures ok ==> Main(order[index]) in assignments && assignments[Main(order[index])] == c
      ensures ok ==> forall j :: index < j < |order| ==>
                       Main(order[j]) in assignments && assignments[Main(order[j])] in domains[order[j]]
      decreases |order| - index, 0
    {
      var course := order[index];
      var admitted := AdmitsWithMirror(c, course, maxRun, cal);
      if !admitted {
        return false;
      }
      assert course !in order[..index];
      ghost var before := View();
      NotYetPlaced(before.assignments, order[..index], course);
      CommitKeepsInv(before, course, c, cal, maxRun);
      CommitKeysFrom(before, order, index, c, cal);
      CommitStep(course, c, cal);
      ghost var committed := View();
      ok := Backtrack(index + 1, order, domains, cal, maxRun);
      if ok {
        CommitExtends(before, course, c, cal);
        return;
      }
      UndoAfterFailure(before, committed, View(), course, c, cal, maxRun);
      UndoStep(course, c);
      return false;
    }
  }
}
