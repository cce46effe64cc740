/** The whole in-memory state at once: the shared course table and every student.
    Because students hold references into the one table, an enrollment or drop by one
    student is seen by all; this module proves that, from an opened schedule onward,
    every course's counter equals the number of students holding it. In particular the
    unguarded decrement in a drop never takes a counter below zero. */
module Registry {
  import opened Common
  import opened Courses
  import opened Students
  import opened Schedules
  import opened StudentIds

  datatype Registry = Registry(table: CourseTable, students: seq<Student>)

  function Holds(st: Student, cid: CourseId): nat {
    if cid in st.classes then 1 else 0
  }

  /** How many students hold course `cid`. */
  function Holders(students: seq<Student>, cid: CourseId): nat
    decreases |students|
  {
    if |students| == 0 then 0 else Holds(students[0], cid) + Holders(students[1..], cid)
  }

  /** Every student satisfies the student invariant, every course the capacity invariant,
      and each counter counts exactly the students holding that course. */
  predicate Consistent(g: Registry) {
    && (forall k :: 0 <= k < |g.students| ==> Students.Valid(g.students[k], g.table))
    && (forall cid :: 0 <= cid < |g.table| ==>
          Courses.Valid(g.table[cid]) && g.table[cid].enrolled == Holders(g.students, cid))
  }

  /** Student `k` tries to enroll in course `cid`. */
  function Enroll(g: Registry, k: nat, cid: CourseId): (r: (EnrollOutcome, Registry))
    requires k < |g.students| && cid < |g.table| && RefsIn(g.students[k].classes, g.table)
    ensures |r.1.students| == |g.students| && |r.1.table| == |g.table|
    ensures forall j :: 0 <= j < |g.students| && j != k ==> r.1.students[j] == g.students[j]
  {
    var step := EnrollInClass(g.students[k], g.table, cid);
    (step.outcome, Registry(step.table, g.students[k := step.student]))
  }

  /** Student `k` drops the course with `code`. */
  function Drop(g: Registry, k: nat, code: string): (r: (DropOutcome, Registry))
    requires k < |g.students| && RefsIn(g.students[k].classes, g.table)
    ensures |r.1.students| == |g.students| && |r.1.table| == |g.table|
    ensures forall j :: 0 <= j < |g.students| && j != k ==> r.1.students[j] == g.students[j]
  {
    var step := DropClass(g.students[k], g.table, code);
    (step.outcome, Registry(step.table, g.students[k := step.student]))
  }

  /** A new student is constructed, given the next id, and joins the registry. */
  function Admit(g: Registry, name: string, counter: nat): (r: (Registry, nat))
    ensures |r.0.students| == |g.students| + 1 && r.1 == counter + 1
    ensures r.0.table == g.table && r.0.students[..|g.students|] == g.students
  {
    var (st, next) := SetStudent(NewStudent(), name, counter);
    (Registry(g.table, g.students + [st]), next)
  }

  /** Replacing one student changes the holder count only by what that student held. */
  lemma {:induction false} HoldersUpdate(students: seq<Student>, k: nat, st: Student, cid: CourseId)
    requires k < |students|
    ensures Holders(students[k := st], cid) + Holds(students[k], cid) == Holders(students, cid) + Holds(st, cid)
    decreases |students|
  {
    if k == 0 {
      assert students[k := st][1..] == students[1..];
    } else {
      assert students[k := st][1..] == students[1..][k - 1 := st];
      HoldersUpdate(students[1..], k - 1, st, cid);
    }
  }

  lemma {:induction false} HoldersAppend(students: seq<Student>, st: Student, cid: CourseId)
    ensures Holders(students + [st], cid) == Holders(students, cid) + Holds(st, cid)
    decreases |students|
  {
    if |students| > 0 {
      assert (students + [st])[1..] == students[1..] + [st];
      HoldersAppend(students[1..], st, cid);
    }
  }

  /** The student invariant only looks at codes, which no operation changes. */
  lemma ValidUnderSameCodes(st: Student, a: CourseTable, b: CourseTable)
    requires Students.Valid(st, a) && SameCodes(a, b)
    ensures Students.Valid(st, b)
  {
  }

  /** An opened schedule with no students yet is consistent. */
  lemma OpeningIsConsistent(seeds: seq<Seed>)
    requires |seeds| == |AllDays| * SlotCount
    ensures Consistent(Registry(CreateSchedule(seeds).1, []))
  {
  }

  lemma AdmitKeepsConsistent(g: Registry, name: string, counter: nat)
    requires Consistent(g)
    ensures Consistent(Admit(g, name, counter).0)
  {
    var r := Admit(g, name, counter).0;
    var st := r.students[|g.students|];
    assert r.students == g.students + [st];
    forall cid | 0 <= cid < |g.table|
      ensures r.table[cid].enrolled == Holders(r.students, cid)
    {
      HoldersAppend(g.students, st, cid);
    }
  }

  lemma EnrollKeepsConsistent(g: Registry, k: nat, cid: CourseId)
    requires Consistent(g) && k < |g.students| && cid < |g.table|
    ensures Consistent(Enroll(g, k, cid).1)
  {
    var st := g.students[k];
    var step := EnrollInClass(st, g.table, cid);
    var r := Enroll(g, k, cid).1;
    EnrollKeepsValid(st, g.table, cid);
    forall j | 0 <= j < |r.students|
      ensures Students.Valid(r.students[j], r.table)
    {
      if j != k {
        ValidUnderSameCodes(g.students[j], g.table, r.table);
      }
    }
    forall c | 0 <= c < |r.table|
      ensures Courses.Valid(r.table[c]) && r.table[c].enrolled == Holders(r.students, c)
    {
      HoldersUpdate(g.students, k, step.student, c);
      if step.outcome == Enrolled {
        assert c in step.student.classes <==> c in st.classes || c == cid;
      }
    }
  }

  lemma DropKeepsConsistent(g: Registry, k: nat, code: string)
    requires Consistent(g) && k < |g.students|
    ensures Consistent(Drop(g, k, code).1)
    ensures forall cid :: 0 <= cid < |g.table| ==> Drop(g, k, code).1.table[cid].enrolled >= 0
  {
    var st := g.students[k];
    var step := DropClass(st, g.table, code);
    var r := Drop(g, k, code).1;
    DropKeepsValid(st, g.table, code);
    forall j | 0 <= j < |r.students|
      ensures Students.Valid(r.students[j], r.table)
    {
      if j != k {
        ValidUnderSameCodes(g.students[j], g.table, r.table);
      }
    }
    if step.outcome == Dropped {
      var i :| 0 <= i < |st.classes| && DroppedAt(st, g.table, code, i, step);
      var dropped := st.classes[i];
      ValidNoDuplicateRefs(st, g.table);
      forall c | 0 <= c < |r.table|
        ensures Courses.Valid(r.table[c]) && r.table[c].enrolled == Holders(r.students, c)
      {
        HoldersUpdate(g.students, k, step.student, c);
        RemoveAtMembership(st.classes, i, c);
      }
    } else {
      forall c | 0 <= c < |r.table|
        ensures Courses.Valid(r.table[c]) && r.table[c].enrolled == Holders(r.students, c)
      {
        HoldersUpdate(g.students, k, step.student, c);
      }
    }
  }

  /** Without duplicates, removing position `i` removes exactly the value stored there. */
  lemma RemoveAtMembership(s: seq<CourseId>, i: nat, c: CourseId)
    requires i < |s|
    requires forall a, b :: 0 <= a < b < |s| ==> s[a] != s[b]
    ensures c in RemoveAt(s, i) <==> c in s && c != s[i]
  {
    var cs := RemoveAt(s, i);
    if c in cs {
      var j :| 0 <= j < |cs| && cs[j] == c;
      assert cs[j] == s[if j < i then j else j + 1];
    }
    if c != s[i] && c in s {
      var j :| 0 <= j < |s| && s[j] == c;
      assert c == cs[if j < i then j else j - 1];
    }
  }

  /** One request of the presentation layer. */
  datatype Request =
    | AdmitStudent(name: string)
    | EnrollIn(who: nat, cid: CourseId)
    | DropCode(who: nat, code: string)

  /** Applies one request; a request naming an unknown student or course is ignored. */
  function Apply(g: Registry, counter: nat, q: Request): (Registry, nat)
    requires Consistent(g)
  {
    match q
    case AdmitStudent(name) => Admit(g, name, counter)
    case EnrollIn(who, cid) =>
      if who < |g.students| && cid < |g.table| then (Enroll(g, who, cid).1, counter) else (g, counter)
    case DropCode(who, code) =>
      if who < |g.students| then (Drop(g, who, code).1, counter) else (g, counter)
  }

  lemma ApplyKeepsConsistent(g: Registry, counter: nat, q: Request)
    requires Consistent(g)
    ensures Consistent(Apply(g, counter, q).0)
  {
    match q
    case AdmitStudent(name) => AdmitKeepsConsistent(g, name, counter);
    case EnrollIn(who, cid) =>
      if who < |g.students| && cid < |g.table| { EnrollKeepsConsistent(g, who, cid); }
    case DropCode(who, code) =>
      if who < |g.students| { DropKeepsConsistent(g, who, code); }
  }

  /** Applies the requests in order. */
  function ApplyAll(g: Registry, counter: nat, qs: seq<Request>): (r: (Registry, nat))
    requires Consistent(g)
    ensures Consistent(r.0)
    decreases |qs|
  {
    if |qs| == 0 then (g, counter)
    else
      ApplyKeepsConsistent(g, counter, qs[0]);
      var (g1, c1) := Apply(g, counter, qs[0]);
      ApplyAll(g1, c1, qs[1..])
  }

  /** From an opened schedule, any sequence of admissions, enrollments and drops keeps every
      counter equal to its number of holders, hence within `0..maxStudents`. */
  lemma RequestsKeepCountersExact(seeds: seq<Seed>, counter: nat, qs: seq<Request>)
    requires |seeds| == |AllDays| * SlotCount
    ensures var g := ApplyAll(Registry(CreateSchedule(seeds).1, []), counter, qs).0;
      forall cid :: 0 <= cid < |g.table| ==>
        0 <= g.table[cid].enrolled == Holders(g.students, cid) <= g.table[cid].maxStudents
  {
    OpeningIsConsistent(seeds);
  }

  /** The walkthrough of the demo script at the end of pbrs.py: the first student admitted
      gets id UOB-0001, enrolls in the course in Sunday's first slot (8:30), has two marks recorded, and drops it again,
      leaving that course's counter where it started. */
  lemma FirstStudentWalkthrough(seeds: seq<Seed>)
    requires |seeds| == |AllDays| * SlotCount
    ensures var g0 := Registry(CreateSchedule(seeds).1, []);
      var (g1, next) := Admit(g0, "Ali", 1);
      var (o2, g2) := Enroll(g1, 0, 0);
      var id := g1.students[0].id.value;
      var course := MarkAttendance(MarkAttendance(g2.table[0], id, true), id, false);
      var g3 := Registry(g2.table[0 := course], g2.students);
      var (o4, g4) := Drop(g3, 0, seeds[0].code);
      && Row(CreateSchedule(seeds).0, Sunday)[0] == 0
      && id == "UOB-0001" && next == 2
      && o2 == Enrolled && g2.table[0].enrolled == 1 && g2.students[0].classes == [0]
      && Ledger(course, id) == [true, false]
      && o4 == Dropped && g4.table[0].enrolled == 0 && g4.students[0].classes == []
  {
    var table := CreateSchedule(seeds).1;
    var g0 := Registry(table, []);
    assert Decimal(1) == "1";
    assert Pad(1) == "0001" by {
      assert ['0'] + "1" == "01" && ['0'] + "01" == "001" && ['0'] + "001" == "0001";
      assert PadTo("1", PadWidth) == PadTo("01", PadWidth);
      assert PadTo("01", PadWidth) == PadTo("001", PadWidth);
      assert PadTo("001", PadWidth) == PadTo("0001", PadWidth) == "0001";
    }
    var (g1, next) := Admit(g0, "Ali", 1);
    assert table[0].enrolled == 0 && table[0].maxStudents == 25;
    var (o2, g2) := Enroll(g1, 0, 0);
    var id := g1.students[0].id.value;
    var course := MarkAttendance(MarkAttendance(g2.table[0], id, true), id, false);
    var g3 := Registry(g2.table[0 := course], g2.students);
    assert g3.students[0].classes == [0];
    var (o4, g4) := Drop(g3, 0, seeds[0].code);
    assert FirstWithCode([0], g3.table, seeds[0].code) == Some(0);
  }
}
