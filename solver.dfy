/**
 * The solver entry point: fail-first ordering of the courses, one backtracking
 * search from an empty state, and the grouping of the finished assignment
 * into one entry per course (its main session and, on Mon..Thu, its mirror).
 */
module Solver {
  import opened Calendar
  import opened Domain
  import opened Constraints
  import opened Search

  // ---------------- fail-first ordering ----------------

  /** Every course of the list has a domain (the sort key len(domains[x]) is defined). */
  predicate HasDomains(s: seq<Course>, domains: map<Course, seq<Candidate>>)
  {
    forall c :: c in s ==> c in domains
  }

  predicate SortedBySize(s: seq<Course>, domains: map<Course, seq<Candidate>>)
    requires HasDomains(s, domains)
  {
    forall i, j :: 0 <= i < j < |s| ==> |domains[s[i]]| <= |domains[s[j]]|
  }

  /** The courses of s whose domain has exactly n candidates, in the order of s. */
  function WithSize(s: seq<Course>, domains: map<Course, seq<Candidate>>, n: nat): seq<Course>
    requires HasDomains(s, domains)
  {
    if s == [] then []
    else (if |domains[s[0]]| == n then [s[0]] else []) + WithSize(s[1..], domains, n)
  }

  /** x goes in front of the first course whose domain is at least as large. */
  function InsertBySize(x: Course, s: seq<Course>, domains: map<Course, seq<Candidate>>): (r: seq<Course>)
    requires x in domains && HasDomains(s, domains)
    ensures multiset(r) == multiset(s) + multiset{x}
    ensures forall c :: c in r <==> c == x || c in s
  {
    if s == [] || |domains[x]| <= |domains[s[0]]| then [x] + s
    else
      var t := InsertBySize(x, s[1..], domains);
      assert s == [s[0]] + s[1..];
      [s[0]] + t
  }

  /** sorted(user_courses, key=lambda x: len(domains[x])): a permutation of the
      courses, ascending by domain size. */
  function SortByDomainSize(s: seq<Course>, domains: map<Course, seq<Candidate>>): (r: seq<Course>)
    requires HasDomains(s, domains)
    ensures multiset(r) == multiset(s)
    ensures forall c :: c in r <==> c in s
    ensures SortedBySize(r, domains)
  {
    if s == [] then []
    else
      var t := SortByDomainSize(s[1..], domains);
      InsertSorted(s[0], t, domains);
      CourseHeadAndTail(s);
      InsertBySize(s[0], t, domains)
  }

  lemma CourseHeadAndTail(s: seq<Course>)
    requires s != []
    ensures multiset(s) == multiset(s[1..]) + multiset{s[0]}
    ensures forall c :: c in s <==> c == s[0] || c in s[1..]
  {
    assert s == [s[0]] + s[1..];
  }

  lemma SortedTail(s: seq<Course>, domains: map<Course, seq<Candidate>>)
    requires HasDomains(s, domains) && SortedBySize(s, domains) && s != []
    ensures SortedBySize(s[1..], domains)
    ensures forall c :: c in s ==> |domains[s[0]]| <= |domains[c]|
  {
    assert forall i, j :: 0 <= i < j < |s[1..]| ==> s[1..][i] == s[i + 1] && s[1..][j] == s[j + 1];
  }

  lemma SortedCons(y: Course, t: seq<Course>, domains: map<Course, seq<Candidate>>)
    requires y in domains && HasDomains(t, domains) && SortedBySize(t, domains)
    requires forall c :: c in t ==> |domains[y]| <= |domains[c]|
    ensures SortedBySize([y] + t, domains)
  {
    var r := [y] + t;
    forall i, j | 0 <= i < j < |r| ensures |domains[r[i]]| <= |domains[r[j]]| {
      assert r[j] == t[j - 1];
      if i > 0 {
        assert r[i] == t[i - 1];
      }
    }
  }

  lemma {:induction false} InsertSorted(x: Course, s: seq<Course>, domains: map<Course, seq<Candidate>>)
    requires x in domains && HasDomains(s, domains) && SortedBySize(s, domains)
    ensures SortedBySize(InsertBySize(x, s, domains), domains)
  {
    if s == [] || |domains[x]| <= |domains[s[0]]| {
      if s != [] {
        SortedTail(s, domains);
      }
      SortedCons(x, s, domains);
    } else {
      SortedTail(s, domains);
      InsertSorted(x, s[1..], domains);
      SortedCons(s[0], InsertBySize(x, s[1..], domains), domains);
    }
  }

  lemma WithSizeCons(y: Course, t: seq<Course>, domains: map<Course, seq<Candidate>>, n: nat)
    requires y in domains && HasDomains(t, domains)
    ensures WithSize([y] + t, domains, n) == (if |domains[y]| == n then [y] else []) + WithSize(t, domains, n)
  {
    assert ([y] + t)[0] == y && ([y] + t)[1..] == t;
  }

  /** Insertion keeps the order of the courses of every size: x lands after
      nothing of its own size. */
  lemma {:induction false} InsertStable(x: Course, s: seq<Course>, domains: map<Course, seq<Candidate>>, n: nat)
    requires x in domains && HasDomains(s, domains)
    ensures WithSize(InsertBySize(x, s, domains), domains, n)
            == (if |domains[x]| == n then [x] else []) + WithSize(s, domains, n)
  {
    if s == [] || |domains[x]| <= |domains[s[0]]| {
      WithSizeCons(x, s, domains, n);
    } else {
      var t := InsertBySize(x, s[1..], domains);
      assert InsertBySize(x, s, domains) == [s[0]] + t;
      InsertStable(x, s[1..], domains, n);
      WithSizeCons(s[0], t, domains, n);
      assert WithSize(s, domains, n)
          == (if |domains[s[0]]| == n then [s[0]] else []) + WithSize(s[1..], domains, n);
      if |domains[x]| == n {
        assert WithSize([s[0]] + t, domains, n) == WithSize(t, domains, n);
        assert WithSize(s, domains, n) == WithSize(s[1..], domains, n);
      } else {
        assert WithSize(t, domains, n) == WithSize(s[1..], domains, n);
      }
    }
  }

  /** The sort is stable: among courses with equally large domains the input
      order is kept. */
  lemma {:induction false} SortStable(s: seq<Course>, domains: map<Course, seq<Candidate>>, n: nat)
    requires HasDomains(s, domains)
    ensures WithSize(SortByDomainSize(s, domains), domains, n) == WithSize(s, domains, n)
  {
    if s != [] {
      SortStable(s[1..], domains, n);
      InsertStable(s[0], SortByDomainSize(s[1..], domains), domains, n);
    }
  }

  lemma {:induction false} InsertDistinct(x: Course, s: seq<Course>, domains: map<Course, seq<Candidate>>)
    requires x in domains && HasDomains(s, domains)
    requires Distinct(s) && x !in s
    ensures Distinct(InsertBySize(x, s, domains))
  {
    if s != [] && |domains[x]| > |domains[s[0]]| {
      var t := InsertBySize(x, s[1..], domains);
      InsertDistinct(x, s[1..], domains);
      var r := [s[0]] + t;
      assert s == [s[0]] + s[1..];
      assert s[0] !in multiset(t);
      forall i, j | 0 <= i < j < |r| ensures r[i] != r[j] {
        if i == 0 {
          assert r[j] == t[j - 1] && t[j - 1] in multiset(t);
        } else {
          assert r[i] == t[i - 1] && r[j] == t[j - 1];
        }
      }
    }
  }

  /** Sorting a list of distinct course codes gives a list of distinct codes. */
  lemma {:induction false} SortDistinct(s: seq<Course>, domains: map<Course, seq<Candidate>>)
    requires HasDomains(s, domains) && Distinct(s)
    ensures Distinct(SortByDomainSize(s, domains))
  {
    if s != [] {
      var t := SortByDomainSize(s[1..], domains);
      assert Distinct(s[1..]) by {
        forall i, j | 0 <= i < j < |s[1..]| ensures s[1..][i] != s[1..][j] {
          assert s[1..][i] == s[i + 1] && s[1..][j] == s[j + 1];
        }
      }
      SortDistinct(s[1..], domains);
      assert s[0] !in s[1..];
      assert s[0] !in multiset(t);
      InsertDistinct(s[0], t, domains);
    }
  }

  // ---------------- grouping ----------------

  /** The entry of one course in the result: its main session and its "::Dup"
      session. The source keeps them in a list; the dictionary's insertion
      order puts the main entry first. */
  datatype Group = Group(main: Option<Candidate>, dup: Option<Candidate>)

  function Courses(a: Assignment): set<Course>
  {
    set k | k in a.Keys :: k.course
  }

  /** The grouping the result promises: one group per course that has an entry. */
  function Grouped(a: Assignment): map<Course, Group>
  {
    map course | course in Courses(a) :: Group(Lookup(a, Main(course)), Lookup(a, Dup(course)))
  }

  /** Every entry of the assignment sits in its course's group, in its key's
      position, and no group is empty. */
  lemma GroupedHoldsEntries(a: Assignment)
    ensures var g := Grouped(a);
            && (forall k :: k in a ==> HasSession(g, k) && SessionAt(g, k) == a[k])
            && (forall course :: course in g ==> g[course].main.Some? || g[course].dup.Some?)
  {
    var g := Grouped(a);
    forall k | k in a ensures HasSession(g, k) && SessionAt(g, k) == a[k] {
      assert k.course in Courses(a);
    }
    forall course | course in g ensures g[course].main.Some? || g[course].dup.Some? {
      var k :| k in a && k.course == course;
      match k
      case Main(_) =>
      case Dup(_) =>
    }
  }

  /** Appending one (key, value) pair to the list of its course. */
  function Place(g: map<Course, Group>, k: Key, v: Candidate): map<Course, Group>
  {
    var grp := if k.course in g then g[k.course] else Group(None, None);
    g[k.course := if k.Main? then grp.(main := Some(v)) else grp.(dup := Some(v))]
  }

  /** The group of k's course holds a session in k's position. */
  predicate HasSession(g: map<Course, Group>, k: Key)
  {
    k.course in g && (if k.Main? then g[k.course].main.Some? else g[k.course].dup.Some?)
  }

  function SessionAt(g: map<Course, Group>, k: Key): Candidate
    requires HasSession(g, k)
  {
    if k.Main? then g[k.course].main.value else g[k.course].dup.value
  }

  /** The sessions held by a grouping, under their assignment keys. */
  function Ungroup(g: map<Course, Group>): (u: Assignment)
    ensures forall k :: k in u <==> HasSession(g, k)
    ensures forall k :: k in u ==> u[k] == SessionAt(g, k)
  {
    SessionKeysCovered(g);
    map k | k in SessionKeys(g) && HasSession(g, k) :: SessionAt(g, k)
  }

  function SessionKeys(g: map<Course, Group>): set<Key>
  {
    (set c | c in g.Keys && g[c].main.Some? :: Main(c)) + (set c | c in g.Keys && g[c].dup.Some? :: Dup(c))
  }

  lemma SessionKeysCovered(g: map<Course, Group>)
    ensures forall k :: HasSession(g, k) ==> k in SessionKeys(g)
  {
    forall k | HasSession(g, k) ensures k in SessionKeys(g) {
      match k
      case Main(c) =>
      case Dup(c) =>
    }
  }

  lemma GroupedPlace(a: Assignment, k: Key, v: Candidate)
    requires k !in a
    ensures Grouped(a[k := v]) == Place(Grouped(a), k, v)
  {
    var a' := a[k := v];
    assert Courses(a') == Courses(a) + {k.course} by {
      forall c | c in Courses(a') ensures c in Courses(a) + {k.course} {
        var k' :| k' in a' && k'.course == c;
      }
      forall c | c in Courses(a) ensures c in Courses(a') {
        var k' :| k' in a && k'.course == c;
        assert k' in a';
      }
    }
  }

  /** Grouping loses nothing: the sessions of the grouping are the assignment. */
  lemma UngroupGrouped(a: Assignment)
    ensures Ungroup(Grouped(a)) == a
  {
    var g := Grouped(a);
    var u := Ungroup(g);
    forall k | k in a ensures HasSession(g, k) && SessionAt(g, k) == a[k] {
      assert k.course in Courses(a);
      match k
      case Main(c) =>
      case Dup(c) =>
    }
    forall k | HasSession(g, k) ensures k in a {
      match k
      case Main(c) =>
      case Dup(c) =>
    }
  }

  /** And in the other direction: a grouping without empty groups is the
      grouping of its own sessions. */
  lemma GroupedUngroup(g: map<Course, Group>)
    requires forall c :: c in g ==> g[c] != Group(None, None)
    ensures Grouped(Ungroup(g)) == g
  {
    var u := Ungroup(g);
    forall c | c in g ensures c in Courses(u) {
      if g[c].main.Some? {
        assert HasSession(g, Main(c));
      } else {
        assert HasSession(g, Dup(c));
      }
    }
    forall c | c in Courses(u) ensures c in g {
      var k :| k in u && k.course == c;
    }
    assert Courses(u) == g.Keys;
    forall c | c in g ensures Group(Lookup(u, Main(c)), Lookup(u, Dup(c))) == g[c] {
      assert HasSession(g, Main(c)) <==> g[c].main.Some?;
      assert HasSession(g, Dup(c)) <==> g[c].dup.Some?;
    }
  }

  /** The grouping loop of lines 233-240, one key of the assignment at a time. */
  method GroupAssignments(a: Assignment) returns (g: map<Course, Group>)
    ensures g == Grouped(a)
  {
    g := map[];
    var remaining := a.Keys;
    assert a - remaining == map[];
    while remaining != {}
      invariant remaining <= a.Keys
      invariant g == Grouped(a - remaining)
      decreases remaining
    {
      var k :| k in remaining;
      assert a - (remaining - {k}) == (a - remaining)[k := a[k]];
      GroupedPlace(a - remaining, k, a[k]);
      g := Place(g, k, a[k]);
      remaining := remaining - {k};
    }
    assert a - remaining == a;
  }

  // ---------------- the solver ----------------

  /** What a returned schedule satisfies: one group per course, each with a main
      session from the course's domain and its mirror exactly on Mon..Thu; no
      room or lecturer booked twice across all sessions; and no lecturer with
      a block of consecutive slots on one day longer than the limit. */
  ghost predicate IsSchedule(g: map<Course, Group>, courses: seq<Course>,
                             domains: map<Course, seq<Candidate>>, cal: Calendar, maxRun: int)
  {
    && g.Keys == (set c | c in courses)
    && (forall course :: course in g ==>
          course in domains && g[course].main.Some? && g[course].main.value in domains[course]
          && g[course].dup == PairOf(g[course].main.value))
    && NoDoubleBooking(Ungroup(g))
    && forall key :: !HasRunIn(IndicesOf(Ungroup(g), key, cal), maxRun)
  }

  /** The search starts from a state that satisfies its invariant. */
  lemma EmptyStateInv(cal: Calendar, maxRun: int)
    ensures Inv(State(map[], {}, {}, map[]), cal, maxRun)
  {
    var s := State(map[], {}, {}, map[]);
    assert SortInts([]) == [];
    forall key ensures !HasLongRun(SortInts(SlotsAt(s.schedule, key)), maxRun) {
      assert SlotsAt(s.schedule, key) == [];
    }
  }

  /** A successful search over a reordering of the courses, grouped, is a schedule. */
  lemma SearchResultIsSchedule(s: State, order: seq<Course>, courses: seq<Course>,
                               domains: map<Course, seq<Candidate>>, cal: Calendar, maxRun: int)
    requires forall c :: c in order <==> c in courses
    requires Inv(s, cal, maxRun) && KeysFrom(s.assignments, order)
    requires forall j :: 0 <= j < |order| ==>
               order[j] in domains && Main(order[j]) in s.assignments
               && s.assignments[Main(order[j])] in domains[order[j]]
    ensures IsSchedule(Grouped(s.assignments), courses, domains, cal, maxRun)
  {
    UngroupGrouped(s.assignments);
    FatigueOnSessions(s, cal, maxRun);
    GroupedCourses(s.assignments, order, courses);
    GroupedEntries(s.assignments, order, domains);
  }

  /** After a successful search the grouping has one group per listed course. */
  lemma GroupedCourses(a: Assignment, order: seq<Course>, courses: seq<Course>)
    requires forall c :: c in order <==> c in courses
    requires KeysFrom(a, order) && forall j :: 0 <= j < |order| ==> Main(order[j]) in a
    ensures Grouped(a).Keys == set c | c in courses
  {
    forall c | c in courses ensures c in Courses(a) {
      var j :| 0 <= j < |order| && order[j] == c;
      assert Main(c) in a;
    }
    forall c | c in Courses(a) ensures c in courses {
      var k :| k in a && k.course == c;
    }
  }

  /** After a successful search every group holds a main session from the
      course's domain and exactly its mirror. */
  lemma GroupedEntries(a: Assignment, order: seq<Course>, domains: map<Course, seq<Candidate>>)
    requires PairingHolds(a) && KeysFrom(a, order)
    requires forall j :: 0 <= j < |order| ==>
               order[j] in domains && Main(order[j]) in a && a[Main(order[j])] in domains[order[j]]
    ensures forall course :: course in Grouped(a) ==>
              course in domains && Grouped(a)[course].main.Some?
              && Grouped(a)[course].main.value in domains[course]
              && Grouped(a)[course].dup == PairOf(Grouped(a)[course].main.value)
  {
    var g := Grouped(a);
    forall course | course in g
      ensures course in domains && g[course].main.Some? && g[course].main.value in domains[course]
              && g[course].dup == PairOf(g[course].main.value)
    {
      var k :| k in a && k.course == course;
      var j :| 0 <= j < |order| && order[j] == course;
    }
  }

  /** solve_backtracking_paired: order the courses fail-first, search from an
      empty state, and group the result; None when the search fails. */
  method Solve(courses: seq<Course>, domains: map<Course, seq<Candidate>>, cal: Calendar, maxRun: int)
    returns (r: Option<map<Course, Group>>)
    requires WellFormedCalendar(cal) && Distinct(courses)
    requires DomainsOnCalendar(courses, domains, cal)
    ensures courses == [] ==> r == Some(map[])
    ensures r.Some? ==> IsSchedule(r.value, courses, domains, cal, maxRun)
  {
    assert HasDomains(courses, domains);
    var order := SortByDomainSize(courses, domains);
    SortDistinct(courses, domains);
    var st := new SearchState();
    EmptyStateInv(cal, maxRun);
    assert order[..0] == [];
    var ok := st.Backtrack(0, order, domains, cal, maxRun);
    if !ok {
      return None;
    }
    var g := GroupAssignments(st.assignments);
    SearchResultIsSchedule(st.View(), order, courses, domains, cal, maxRun);
    return Some(g);
  }
}
