/**
 * Domain construction: every (day, timeslot, lab, lecturer) candidate of a
 * course, in day -> timeslot -> lab -> lecturer order, with the lecturer pool
 * looked up from the department prefix of the course code.
 */
module Domain {
  import opened Calendar

  type Lab = int
  type Lecturer = string
  type Course = string

  /** One placement of one session (the source's 4-tuple). */
  datatype Candidate = Candidate(day: Day, time: Timeslot, lab: Lab, lecturer: Lecturer)

  /** The department prefix course[:3]; Python slicing stops at the end of a shorter code. */
  function DeptPrefix(course: Course): (p: string)
    ensures p <= course
    ensures |p| == if |course| < 3 then |course| else 3
  {
    if |course| < 3 then course else course[..3]
  }

  /** The lecturer pool of a course: the roster entry of its department, or the
      single placeholder "Unknown" when the department has no entry. */
  function GetLecturers(roster: map<string, seq<Lecturer>>, course: Course): (r: seq<Lecturer>)
    ensures DeptPrefix(course) in roster ==> r == roster[DeptPrefix(course)]
    ensures DeptPrefix(course) !in roster ==> r == ["Unknown"]
    ensures (forall dept :: dept in roster ==> roster[dept] != []) ==> r != []
  {
    var dept := DeptPrefix(course);
    if dept in roster then roster[dept] else ["Unknown"]
  }

  /** The lab identifiers 1..n (the source's list(range(1, num_labs + 1))). */
  function Labs(n: nat): (r: seq<Lab>)
    ensures |r| == n
    ensures forall lab :: lab in r <==> 1 <= lab <= n
  {
    var r := seq(n, i => i + 1);
    assert forall lab | 1 <= lab <= n :: lab in r by {
      forall lab | 1 <= lab <= n ensures lab in r {
        assert r[lab - 1] == lab;
      }
    }
    r
  }

  // The product, written from the end so that each level is "what the loops
  // have appended so far" followed by the next row.

  function LecturerRow(d: Day, t: Timeslot, lab: Lab, lecs: seq<Lecturer>): seq<Candidate>
  {
    seq(|lecs|, k requires 0 <= k < |lecs| => Candidate(d, t, lab, lecs[k]))
  }

  function LabRows(d: Day, t: Timeslot, labs: seq<Lab>, lecs: seq<Lecturer>): seq<Candidate>
  {
    if labs == [] then []
    else LabRows(d, t, labs[..|labs| - 1], lecs) + LecturerRow(d, t, labs[|labs| - 1], lecs)
  }

  function TimeRows(d: Day, ts: seq<Timeslot>, labs: seq<Lab>, lecs: seq<Lecturer>): seq<Candidate>
  {
    if ts == [] then []
    else TimeRows(d, ts[..|ts| - 1], labs, lecs) + LabRows(d, ts[|ts| - 1], labs, lecs)
  }

  /** The whole domain for a lecturer pool: days in calendar order, then timeslots, labs, lecturers. */
  function Product(cal: Calendar, labs: seq<Lab>, lecs: seq<Lecturer>): seq<Candidate>
  {
    if cal == [] then []
    else Product(cal[..|cal| - 1], labs, lecs) + TimeRows(cal[|cal| - 1].0, cal[|cal| - 1].1, labs, lecs)
  }

  /** The number of (day, timeslot) pairs of the calendar. */
  function TotalSlots(cal: Calendar): nat
  {
    if cal == [] then 0 else TotalSlots(cal[..|cal| - 1]) + |cal[|cal| - 1].1|
  }

  lemma {:induction false} LabRowsLength(d: Day, t: Timeslot, labs: seq<Lab>, lecs: seq<Lecturer>)
    ensures |LabRows(d, t, labs, lecs)| == |labs| * |lecs|
    decreases |labs|
  {
    if labs != [] {
      LabRowsLength(d, t, labs[..|labs| - 1], lecs);
      MulDistributes(|labs| - 1, 1, |lecs|);
    }
  }

  lemma {:induction false} TimeRowsLength(d: Day, ts: seq<Timeslot>, labs: seq<Lab>, lecs: seq<Lecturer>)
    ensures |TimeRows(d, ts, labs, lecs)| == |ts| * (|labs| * |lecs|)
    decreases |ts|
  {
    if ts != [] {
      var k := |labs| * |lecs|;
      TimeRowsLength(d, ts[..|ts| - 1], labs, lecs);
      LabRowsLength(d, ts[|ts| - 1], labs, lecs);
      MulDistributes(|ts| - 1, 1, k);
    }
  }

  /** The domain has (total slot count) x |labs| x |lecturers| candidates. */
  lemma {:induction false} ProductLength(cal: Calendar, labs: seq<Lab>, lecs: seq<Lecturer>)
    ensures |Product(cal, labs, lecs)| == TotalSlots(cal) * (|labs| * |lecs|)
    decreases |cal|
  {
    if cal != [] {
      var init, last := cal[..|cal| - 1], cal[|cal| - 1];
      var k := |labs| * |lecs|;
      calc {
        |Product(cal, labs, lecs)|;
        |Product(init, labs, lecs)| + |TimeRows(last.0, last.1, labs, lecs)|;
        { ProductLength(init, labs, lecs); TimeRowsLength(last.0, last.1, labs, lecs); }
        TotalSlots(init) * k + |last.1| * k;
        { MulDistributes(TotalSlots(init), |last.1|, k); }
        (TotalSlots(init) + |last.1|) * k;
        TotalSlots(cal) * k;
      }
    }
  }

  lemma MulDistributes(a: nat, b: nat, k: nat)
    ensures (a + b) * k == a * k + b * k
  {
  }

  lemma {:induction false} LabRowsMembers(d: Day, t: Timeslot, labs: seq<Lab>, lecs: seq<Lecturer>, c: Candidate)
    ensures c in LabRows(d, t, labs, lecs) <==>
              c.day == d && c.time == t && c.lab in labs && c.lecturer in lecs
    decreases |labs|
  {
    if labs != [] {
      var init := labs[..|labs| - 1];
      LabRowsMembers(d, t, init, lecs, c);
      assert labs == init + [labs[|labs| - 1]];
      if c in LecturerRow(d, t, labs[|labs| - 1], lecs) {
        var k :| 0 <= k < |lecs| && LecturerRow(d, t, labs[|labs| - 1], lecs)[k] == c;
      }
      if c.day == d && c.time == t && c.lab == labs[|labs| - 1] && c.lecturer in lecs {
        var k :| 0 <= k < |lecs| && lecs[k] == c.lecturer;
        assert LecturerRow(d, t, labs[|labs| - 1], lecs)[k] == c;
      }
    }
  }

  lemma {:induction false} TimeRowsMembers(d: Day, ts: seq<Timeslot>, labs: seq<Lab>, lecs: seq<Lecturer>, c: Candidate)
    ensures c in TimeRows(d, ts, labs, lecs) <==>
              c.day == d && c.time in ts && c.lab in labs && c.lecturer in lecs
    decreases |ts|
  {
    if ts != [] {
      var init := ts[..|ts| - 1];
      TimeRowsMembers(d, init, labs, lecs, c);
      LabRowsMembers(d, ts[|ts| - 1], labs, lecs, c);
      assert ts == init + [ts[|ts| - 1]];
    }
  }

  /** A day/label pair that some calendar entry lists. */
  predicate Listed(cal: Calendar, d: Day, t: Timeslot)
  {
    exists i :: 0 <= i < |cal| && cal[i].0 == d && t in cal[i].1
  }

  /** A pair is listed by a calendar with one more entry exactly when the
      shorter calendar lists it or the new entry does. */
  lemma ListedSnoc(cal: Calendar, d: Day, t: Timeslot)
    requires cal != []
    ensures Listed(cal, d, t) <==>
              Listed(cal[..|cal| - 1], d, t) || (cal[|cal| - 1].0 == d && t in cal[|cal| - 1].1)
  {
    var init := cal[..|cal| - 1];
    if Listed(cal, d, t) {
      var i :| 0 <= i < |cal| && cal[i].0 == d && t in cal[i].1;
      if i < |init| {
        assert init[i] == cal[i];
      }
    }
    if Listed(init, d, t) {
      var i :| 0 <= i < |init| && init[i].0 == d && t in init[i].1;
      assert cal[i] == init[i];
    }
  }

  /** The domain is exactly the product: nothing is filtered at build time. */
  lemma {:induction false} ProductMembers(cal: Calendar, labs: seq<Lab>, lecs: seq<Lecturer>, c: Candidate)
    ensures c in Product(cal, labs, lecs) <==>
              Listed(cal, c.day, c.time) && c.lab in labs && c.lecturer in lecs
    decreases |cal|
  {
    if cal != [] {
      var init := cal[..|cal| - 1];
      var last := cal[|cal| - 1];
      ProductMembers(init, labs, lecs, c);
      TimeRowsMembers(last.0, last.1, labs, lecs, c);
      ListedSnoc(cal, c.day, c.time);
    }
  }

  /** On a calendar with distinct days, being listed is being on the calendar. */
  lemma ListedIsOnCalendar(cal: Calendar, d: Day, t: Timeslot)
    requires DistinctDays(cal)
    ensures Listed(cal, d, t) <==> OnCalendar(cal, d, t)
  {
    if Listed(cal, d, t) {
      var i :| 0 <= i < |cal| && cal[i].0 == d && t in cal[i].1;
      var j :| 0 <= j < |cal| && cal[j] == (d, SlotsOf(cal, d).value);
      assert i == j;
    }
    if OnCalendar(cal, d, t) {
      var j :| 0 <= j < |cal| && cal[j] == (d, SlotsOf(cal, d).value);
      assert cal[j].0 == d && t in cal[j].1;
    }
  }

  /** The innermost loop: one candidate per lecturer of the pool. */
  method AppendLecturers(domain: seq<Candidate>, d: Day, t: Timeslot, lab: Lab, lecs: seq<Lecturer>)
    returns (r: seq<Candidate>)
    ensures r == domain + LecturerRow(d, t, lab, lecs)
  {
    r := domain;
    for l := 0 to |lecs|
      invariant r == domain + LecturerRow(d, t, lab, lecs[..l])
    {
      r := r + [Candidate(d, t, lab, lecs[l])];
      assert LecturerRow(d, t, lab, lecs[..l + 1]) == LecturerRow(d, t, lab, lecs[..l]) + [Candidate(d, t, lab, lecs[l])];
    }
    assert lecs[..|lecs|] == lecs;
  }

  /** The loop over the labs, for one day and label. */
  method AppendLabs(domain: seq<Candidate>, d: Day, t: Timeslot, labs: seq<Lab>, lecs: seq<Lecturer>)
    returns (r: seq<Candidate>)
    ensures r == domain + LabRows(d, t, labs, lecs)
  {
    r := domain;
    for b := 0 to |labs|
      invariant r == domain + LabRows(d, t, labs[..b], lecs)
    {
      r := AppendLecturers(r, d, t, labs[b], lecs);
      assert labs[..b + 1][..b] == labs[..b];
    }
    assert labs[..|labs|] == labs;
  }

  /** The loop over the labels of one day. */
  method AppendTimes(domain: seq<Candidate>, d: Day, ts: seq<Timeslot>, labs: seq<Lab>, lecs: seq<Lecturer>)
    returns (r: seq<Candidate>)
    ensures r == domain + TimeRows(d, ts, labs, lecs)
  {
    r := domain;
    for j := 0 to |ts|
      invariant r == domain + TimeRows(d, ts[..j], labs, lecs)
    {
      r := AppendLabs(r, d, ts[j], labs, lecs);
      assert ts[..j + 1][..j] == ts[..j];
    }
    assert ts[..|ts|] == ts;
  }

  /** The outer loop over the days of the calendar, appending one candidate at a time. */
  method BuildDomain(cal: Calendar, labs: seq<Lab>, lecs: seq<Lecturer>) returns (domain: seq<Candidate>)
    ensures domain == Product(cal, labs, lecs)
  {
    domain := [];
    for i := 0 to |cal|
      invariant domain == Product(cal[..i], labs, lecs)
    {
      domain := AppendTimes(domain, cal[i].0, cal[i].1, labs, lecs);
      assert cal[..i + 1][..i] == cal[..i];
    }
    assert cal[..|cal|] == cal;
  }

  /** build_domain_for_course: the product over the calendar, labs 1..numLabs and
      the course's lecturer pool, with its size and its members stated. */
  method BuildDomainForCourse(course: Course, roster: map<string, seq<Lecturer>>, cal: Calendar, numLabs: nat)
    returns (domain: seq<Candidate>)
    requires DistinctDays(cal)
    ensures domain == Product(cal, Labs(numLabs), GetLecturers(roster, course))
    ensures |domain| == TotalSlots(cal) * (numLabs * |GetLecturers(roster, course)|)
    ensures forall c :: c in domain <==>
              OnCalendar(cal, c.day, c.time) && 1 <= c.lab <= numLabs
              && c.lecturer in GetLecturers(roster, course)
  {
    var lecs := GetLecturers(roster, course);
    domain := BuildDomain(cal, Labs(numLabs), lecs);
    ProductLength(cal, Labs(numLabs), lecs);
    forall c ensures c in domain <==>
        OnCalendar(cal, c.day, c.time) && 1 <= c.lab <= numLabs && c.lecturer in lecs
    {
      ProductMembers(cal, Labs(numLabs), lecs, c);
      ListedIsOnCalendar(cal, c.day, c.time);
    }
  }
}
