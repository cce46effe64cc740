/** A course: a capacity-bounded enrollment counter plus an append-only
    attendance ledger keyed by student id. */
module Courses {

  const DefaultCreditHours: int := 3
  const DefaultMaxStudents: int := 25
  const DefaultPriority: string := "Normal"

  datatype Course = Course(
    name: string,
    code: string,
    creditHours: int,
    maxStudents: int,
    enrolled: int,
    priority: string,
    attendance: map<string, seq<bool>>)

  /** Every course object of the program lives in one table; a reference is an index. */
  type CourseTable = seq<Course>

  /** The capacity invariant of a course. */
  predicate Valid(c: Course) {
    0 <= c.enrolled <= c.maxStudents
  }

  /** The presence marks recorded for `id`, empty when none were ever recorded. */
  function Ledger(c: Course, id: string): seq<bool> {
    if id in c.attendance then c.attendance[id] else []
  }

  /** `b` keeps every ledger of `a` as a prefix: no entry is ever removed or rewritten. */
  predicate LedgerExtends(a: Course, b: Course) {
    && a.attendance.Keys <= b.attendance.Keys
    && forall id :: id in a.attendance ==> a.attendance[id] <= Ledger(b, id)
  }

  /** Initialises (or re-initialises) a course: counter zero, empty ledger. Credit hours,
      capacity and priority default to 3, 25 and "Normal". */
  function CreateCourse(name: string, code: string, creditHours: int := DefaultCreditHours,
                        maxStudents: int := DefaultMaxStudents, priority: string := DefaultPriority): (c: Course)
    ensures c.name == name && c.code == code && c.priority == priority
    ensures c.creditHours == creditHours && c.maxStudents == maxStudents
    ensures c.enrolled == 0
    ensures c.attendance == map[]
    ensures forall id :: Ledger(c, id) == []
    ensures Valid(c) <==> maxStudents >= 0
  {
    Course(name, code, creditHours, maxStudents, 0, priority, map[])
  }

  /** Takes one seat if one is free; reports whether it did. */
  function EnrollStudent(c: Course): (r: (bool, Course))
    ensures r.0 <==> c.enrolled < c.maxStudents
    ensures r.0 ==> r.1.enrolled == c.enrolled + 1
    ensures !r.0 ==> r.1 == c
    ensures r.1 == c.(enrolled := r.1.enrolled)
    ensures Valid(c) ==> Valid(r.1)
  {
    if c.enrolled < c.maxStudents then (true, c.(enrolled := c.enrolled + 1))
    else (false, c)
  }

  /** Appends one presence mark to `id`'s ledger, creating the ledger on first use.
      No check that `id` is enrolled. */
  function MarkAttendance(c: Course, id: string, present: bool := true): (r: Course)
    ensures Ledger(r, id) == Ledger(c, id) + [present]
    ensures forall other :: other != id ==> Ledger(r, other) == Ledger(c, other)
    ensures r.attendance.Keys == c.attendance.Keys + {id}
    ensures r == c.(attendance := r.attendance)
  {
    var marks := if id in c.attendance then c.attendance[id] else [];
    c.(attendance := c.attendance[id := marks + [present]])
  }

  /** A single mark never removes or rewrites anything already recorded. */
  lemma MarkAttendanceExtends(c: Course, id: string, present: bool)
    ensures LedgerExtends(c, MarkAttendance(c, id, present))
  {
  }

  /** The ledger as a read-only value. */
  function ShowAttendance(c: Course): (r: map<string, seq<bool>>)
    ensures forall id :: id in r ==> r[id] == Ledger(c, id)
    ensures r.Keys == c.attendance.Keys
  {
    c.attendance
  }

  /** `n` successive enrollment attempts: the number that succeeded and the resulting course. */
  function EnrollTimes(c: Course, n: nat): (nat, Course)
    decreases n
  {
    if n == 0 then (0, c)
    else
      var (ok, c1) := EnrollStudent(c);
      var (k, c2) := EnrollTimes(c1, n - 1);
      (if ok then k + 1 else k, c2)
  }

  /** Repeated enrollment fills exactly the free seats and then fails every time. */
  lemma {:induction false} EnrollTimesFillsFreeSeats(c: Course, n: nat)
    requires Valid(c)
    ensures var (k, r) := EnrollTimes(c, n);
      && k == (if n <= c.maxStudents - c.enrolled then n else c.maxStudents - c.enrolled)
      && r.enrolled == c.enrolled + k
      && Valid(r)
      && r == c.(enrolled := r.enrolled)
    decreases n
  {
    if n > 0 {
      var (ok, c1) := EnrollStudent(c);
      EnrollTimesFillsFreeSeats(c1, n - 1);
    }
  }

  /** A fresh course with capacity `m` accepts exactly `m` of `m + extra` attempts
      and rejects the other `extra`. */
  lemma FreshCourseAcceptsExactlyCapacity(name: string, code: string, creditHours: int, m: nat, priority: string, extra: nat)
    ensures var (k, r) := EnrollTimes(CreateCourse(name, code, creditHours, m, priority), m + extra);
      && k == m
      && (m + extra) - k == extra
      && r.enrolled == m
  {
    EnrollTimesFillsFreeSeats(CreateCourse(name, code, creditHours, m, priority), m + extra);
  }

  /** Marks `ps` in order for the same student. */
  function MarkAll(c: Course, id: string, ps: seq<bool>): Course
    decreases |ps|
  {
    if |ps| == 0 then c else MarkAll(MarkAttendance(c, id, ps[0]), id, ps[1..])
  }

  /** Successive marks land at the end of the ledger, in call order. */
  lemma {:induction false} MarkAllAppends(c: Course, id: string, ps: seq<bool>)
    ensures Ledger(MarkAll(c, id, ps), id) == Ledger(c, id) + ps
    decreases |ps|
  {
    if |ps| > 0 {
      var c1 := MarkAttendance(c, id, ps[0]);
      MarkAllAppends(c1, id, ps[1..]);
      assert Ledger(c1, id) == Ledger(c, id) + [ps[0]];
      assert ps == [ps[0]] + ps[1..];
      assert (Ledger(c, id) + [ps[0]]) + ps[1..] == Ledger(c, id) + ([ps[0]] + ps[1..]);
    }
  }

  /** A series of marks for one student leaves every other ledger as it was. */
  lemma {:induction false} MarkAllFrame(c: Course, id: string, ps: seq<bool>, other: string)
    requires other != id
    ensures Ledger(MarkAll(c, id, ps), other) == Ledger(c, other)
    decreases |ps|
  {
    if |ps| > 0 {
      MarkAllFrame(MarkAttendance(c, id, ps[0]), id, ps[1..], other);
    }
  }

  /** A series of marks drops no id from the ledger, and adds `id` alone (when there is a mark). */
  lemma {:induction false} MarkAllKeys(c: Course, id: string, ps: seq<bool>)
    ensures MarkAll(c, id, ps).attendance.Keys == if |ps| == 0 then c.attendance.Keys else c.attendance.Keys + {id}
    decreases |ps|
  {
    if |ps| > 0 {
      MarkAllKeys(MarkAttendance(c, id, ps[0]), id, ps[1..]);
    }
  }

  /** Nothing already recorded is ever lost by a series of marks. */
  lemma MarkAllExtends(c: Course, id: string, ps: seq<bool>)
    ensures LedgerExtends(c, MarkAll(c, id, ps))
  {
    MarkAllAppends(c, id, ps);
    MarkAllKeys(c, id, ps);
    var r := MarkAll(c, id, ps);
    forall k | k in c.attendance
      ensures c.attendance[k] <= Ledger(r, k)
    {
      if k != id {
        MarkAllFrame(c, id, ps, k);
      }
    }
  }

  /** A fresh course marked only for one student shows exactly that student's marks, in order. */
  lemma FreshAttendanceSnapshot(name: string, code: string, id: string, ps: seq<bool>)
    requires |ps| > 0
    ensures ShowAttendance(MarkAll(CreateCourse(name, code), id, ps)) == map[id := ps]
  {
    var c := CreateCourse(name, code);
    var r := MarkAll(c, id, ps);
    MarkAllAppends(c, id, ps);
    MarkAllKeys(c, id, ps);
    assert Ledger(c, id) + ps == ps;
    assert r.attendance.Keys == {id};
  }
}
