/**
 * The calendar of the lab scheduler: days, their day-pattern class, the
 * Mon<->Wed / Tue<->Thu pairing, and the per-day ordered list of timeslot
 * labels whose positions are the slot indices used by the back-to-back rule.
 *
 * The source keeps the calendar in a module-level dictionary; here it is a
 * parameter: a sequence of (day, labels) entries in the dictionary's order.
 */
module Calendar {

  datatype Option<T> = None | Some(value: T)

  type Timeslot = string

  /** The six days of the source's calendar; any other dictionary key is OtherDay. */
  datatype Day = Mon | Tue | Wed | Thu | Fri | Sat | OtherDay(name: string)

  /** Day-pattern classes; the source spells them "MW", "TTh", "FriSat", "Other". */
  datatype Pattern = MW | TTh | FriSat | OtherPattern

  function DayPattern(d: Day): Pattern
  {
    match d
    case Mon | Wed => MW
    case Tue | Thu => TTh
    case Fri | Sat => FriSat
    case OtherDay(_) => OtherPattern
  }

  /** The partner day of a pairable day; None for Fri, Sat and any other day. */
  function PairedDay(d: Day): (r: Option<Day>)
    ensures r.Some? <==> DayPattern(d) == MW || DayPattern(d) == TTh
    ensures r.Some? ==> r.value != d && DayPattern(r.value) == DayPattern(d)
  {
    match d
    case Mon => Some(Wed)
    case Wed => Some(Mon)
    case Tue => Some(Thu)
    case Thu => Some(Tue)
    case _ => None
  }

  /** Pairing is an involution without fixed points on exactly the MW and TTh days,
      and it keeps the day-pattern class. */
  lemma PairedDayInvolution(d: Day)
    ensures PairedDay(d).Some? <==> DayPattern(d) == MW || DayPattern(d) == TTh
    ensures PairedDay(d).Some? ==>
              var p := PairedDay(d).value;
              p != d && PairedDay(p) == Some(d) && DayPattern(p) == DayPattern(d)
  {
    match d
    case Mon =>
    case Wed =>
    case Tue =>
    case Thu =>
    case _ =>
  }

  /** Two days share a pattern class exactly when they are equal, partners,
      both in Fri/Sat, or both outside Mon..Sat. */
  lemma SamePatternClass(d: Day, e: Day)
    ensures DayPattern(d) == DayPattern(e) <==>
              d == e || PairedDay(d) == Some(e)
              || ((d == Fri || d == Sat) && (e == Fri || e == Sat))
              || (d.OtherDay? && e.OtherDay?)
  {
    match d
    case Mon =>
    case Wed =>
    case Tue =>
    case Thu =>
    case _ =>
  }

  type Calendar = seq<(Day, seq<Timeslot>)>

  /** The labels of day d, as a dictionary lookup; None when d is not a key. */
  function SlotsOf(cal: Calendar, d: Day): (r: Option<seq<Timeslot>>)
    ensures r.None? <==> forall i :: 0 <= i < |cal| ==> cal[i].0 != d
    ensures r.Some? ==> exists i :: 0 <= i < |cal| && cal[i] == (d, r.value)
  {
    if |cal| == 0 then None
    else if cal[0].0 == d then Some(cal[0].1)
    else
      var r := SlotsOf(cal[1..], d);
      assert forall i :: 1 <= i < |cal| ==> cal[i] == cal[1..][i - 1];
      r
  }

  /** The index a dictionary built by enumerating ts gives t: the last position
      holding t (later entries overwrite earlier ones). */
  function LastIndexOf(ts: seq<Timeslot>, t: Timeslot): (r: Option<nat>)
    ensures r.None? <==> t !in ts
    ensures r.Some? ==> r.value < |ts| && ts[r.value] == t
    ensures r.Some? ==> forall j :: r.value < j < |ts| ==> ts[j] != t
  {
    if |ts| == 0 then None
    else if ts[|ts| - 1] == t then Some(|ts| - 1)
    else
      var r := LastIndexOf(ts[..|ts| - 1], t);
      assert ts == ts[..|ts| - 1] + [ts[|ts| - 1]];
      r
  }

  /** The slot index of label t on day d (the source's slot_index_map[d][t]). */
  function SlotIndex(cal: Calendar, d: Day, t: Timeslot): (r: Option<nat>)
    ensures r.Some? <==> OnCalendar(cal, d, t)
    ensures r.Some? ==> r.value < |SlotsOf(cal, d).value| && SlotsOf(cal, d).value[r.value] == t
  {
    match SlotsOf(cal, d)
    case None => None
    case Some(ts) => LastIndexOf(ts, t)
  }

  predicate OnCalendar(cal: Calendar, d: Day, t: Timeslot)
  {
    SlotsOf(cal, d).Some? && t in SlotsOf(cal, d).value
  }

  predicate DistinctDays(cal: Calendar)
  {
    forall i, j :: 0 <= i < j < |cal| ==> cal[i].0 != cal[j].0
  }

  predicate DistinctLabels(ts: seq<Timeslot>)
  {
    forall i, j :: 0 <= i < j < |ts| ==> ts[i] != ts[j]
  }

  /** Every label of a pairable day is also a label of its partner day. */
  predicate PairClosed(cal: Calendar)
  {
    forall i, t :: 0 <= i < |cal| && PairedDay(cal[i].0).Some? && t in cal[i].1 ==>
      OnCalendar(cal, PairedDay(cal[i].0).value, t)
  }

  /** What the source's fixed calendar satisfies and the engine relies on: the
      dictionary has distinct keys and labels, and the commit of a mirrored
      session finds its label on the partner day. */
  predicate WellFormedCalendar(cal: Calendar)
  {
    && DistinctDays(cal)
    && (forall i :: 0 <= i < |cal| ==> DistinctLabels(cal[i].1))
    && PairClosed(cal)
  }

  /** A label on the calendar has a slot index, and on a well-formed calendar
      that index identifies the label within its day. */
  lemma SlotIndexOnCalendar(cal: Calendar, d: Day, t: Timeslot, t': Timeslot)
    requires WellFormedCalendar(cal)
    requires OnCalendar(cal, d, t)
    ensures SlotIndex(cal, d, t).Some?
    ensures SlotIndex(cal, d, t') == SlotIndex(cal, d, t) ==> t' == t
  {
    var ts := SlotsOf(cal, d).value;
    var i :| 0 <= i < |cal| && cal[i] == (d, ts);
    assert DistinctLabels(ts);
  }
}
