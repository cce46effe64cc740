/** A student: an id from the shared counter, a bounded list of course references
    with unique codes, and an append-only activity log. Enrolling and dropping also
    change the referenced course's counter in the shared course table. */
module Students {
  import opened Common
  import opened Courses
  import opened StudentIds

  const DefaultMaxClasses: int := 5

  /** One entry of the activity log. The text of the source's messages is not modelled. */
  datatype Activity =
    | EnrolledIn(courseName: string)
    | DroppedCourse(courseName: string)
    | Note(text: string)

  datatype Student = Student(
    id: Option<string>,
    name: Option<string>,
    classes: seq<CourseId>,
    log: seq<Activity>,
    maxClasses: int)

  datatype EnrollOutcome =
    | Enrolled
    | Conflict          // the very same course is already held
    | MaxClassesReached
    | AlreadyEnrolled   // another held course carries the same code
    | CourseFull

  datatype DropOutcome = Dropped | NotFound

  /** The student and the course table after an operation, with what the operation reported. */
  datatype Step<O> = Step(outcome: O, student: Student, table: CourseTable)

  /** Every reference points into the table. */
  predicate RefsIn(classes: seq<CourseId>, table: CourseTable) {
    forall i :: 0 <= i < |classes| ==> classes[i] < |table|
  }

  predicate HoldsCode(classes: seq<CourseId>, table: CourseTable, code: string)
    requires RefsIn(classes, table)
  {
    exists i :: 0 <= i < |classes| && table[classes[i]].code == code
  }

  predicate CodesUnique(classes: seq<CourseId>, table: CourseTable)
    requires RefsIn(classes, table)
  {
    forall i, j :: 0 <= i < j < |classes| ==> table[classes[i]].code != table[classes[j]].code
  }

  /** The student invariant: references valid, at most `maxClasses` of them, codes unique. */
  predicate Valid(st: Student, table: CourseTable) {
    && RefsIn(st.classes, table)
    && |st.classes| <= st.maxClasses
    && CodesUnique(st.classes, table)
  }

  /** Two tables agree on every course's code (only counters and ledgers differ). */
  predicate SameCodes(a: CourseTable, b: CourseTable) {
    |a| == |b| && forall k :: 0 <= k < |a| ==> a[k].code == b[k].code
  }

  /** A freshly constructed student: no id or name yet, no classes, empty log, limit 5. */
  function NewStudent(): (st: Student)
    ensures st.id.None? && st.name.None? && |st.classes| == 0 && |st.log| == 0
    ensures st.maxClasses == DefaultMaxClasses
  {
    Student(None, None, [], [], DefaultMaxClasses)
  }

  /** Assigns the id for the current counter value and returns the advanced counter.
      Classes and log are left as they were. */
  function SetStudent(st: Student, name: string, counter: nat): (r: (Student, nat))
    ensures r.1 == counter + 1
    ensures r.0.id == Some(StudentId(counter))
    ensures r.0.name == Some(name)
    ensures r.0.classes == st.classes && r.0.log == st.log && r.0.maxClasses == st.maxClasses
  {
    (st.(id := Some(StudentId(counter)), name := Some(name)), counter + 1)
  }

  /** Registers one fresh student per name, in order, from the shared counter: the i-th
      receives the id for counter value `counter + i`. */
  function SetStudents(names: seq<string>, counter: nat): (r: (seq<Student>, nat))
    ensures |r.0| == |names|
    ensures r.1 == counter + |names|
    ensures forall i :: 0 <= i < |r.0| ==> r.0[i].id == Some(StudentId(counter + i)) && r.0[i].name == Some(names[i])
    decreases |names|
  {
    if |names| == 0 then ([], counter)
    else
      var (st, next) := SetStudent(NewStudent(), names[0], counter);
      var (rest, last) := SetStudents(names[1..], next);
      ([st] + rest, last)
  }

  /** Successive registrations hand out pairwise distinct ids. */
  lemma SetStudentsDistinctIds(names: seq<string>, counter: nat)
    ensures var sts := SetStudents(names, counter).0;
      forall i, j :: 0 <= i < j < |sts| ==> sts[i].id != sts[j].id
  {
    CountedIdsDistinct(SetStudents(names, counter).0, counter);
  }

  /** Students numbered consecutively from `counter` have pairwise distinct ids. */
  lemma CountedIdsDistinct(sts: seq<Student>, counter: nat)
    requires forall i :: 0 <= i < |sts| ==> sts[i].id == Some(StudentId(counter + i))
    ensures forall i, j :: 0 <= i < j < |sts| ==> sts[i].id != sts[j].id
  {
    forall i, j | 0 <= i < j < |sts|
      ensures sts[i].id != sts[j].id
    {
      StudentIdInjective(counter + i, counter + j);
    }
  }

  /** Appends one entry at the end of the log. */
  function LogActivity(st: Student, a: Activity): (r: Student)
    ensures |r.log| == |st.log| + 1 && r.log[..|st.log|] == st.log && r.log[|st.log|] == a
    ensures r == st.(log := r.log)
  {
    st.(log := st.log + [a])
  }

  /** The ordered chain of checks, then the course's own capacity check. */
  function EnrollInClass(st: Student, table: CourseTable, cid: CourseId): (r: Step<EnrollOutcome>)
    requires RefsIn(st.classes, table) && cid < |table|
    ensures r.outcome == Conflict <==> cid in st.classes
    ensures r.outcome == MaxClassesReached <==> cid !in st.classes && |st.classes| >= st.maxClasses
    ensures r.outcome == AlreadyEnrolled <==>
      cid !in st.classes && |st.classes| < st.maxClasses && HoldsCode(st.classes, table, table[cid].code)
    ensures r.outcome == CourseFull <==>
      cid !in st.classes && |st.classes| < st.maxClasses && !HoldsCode(st.classes, table, table[cid].code)
      && table[cid].enrolled >= table[cid].maxStudents
    ensures r.outcome != Enrolled ==> r.student == st && r.table == table
    ensures r.outcome == Enrolled ==>
      && r.student.classes == st.classes + [cid]
      && r.student == LogActivity(st, EnrolledIn(table[cid].name)).(classes := r.student.classes)
      && |r.table| == |table|
      && r.table[cid] == table[cid].(enrolled := table[cid].enrolled + 1)
      && forall k :: 0 <= k < |table| && k != cid ==> r.table[k] == table[k]
    ensures SameCodes(table, r.table) && RefsIn(r.student.classes, r.table)
  {
    if cid in st.classes then Step(Conflict, st, table)
    else if |st.classes| >= st.maxClasses then Step(MaxClassesReached, st, table)
    else if HoldsCode(st.classes, table, table[cid].code) then Step(AlreadyEnrolled, st, table)
    else
      var (ok, course) := EnrollStudent(table[cid]);
      if ok then
        Step(Enrolled, LogActivity(st.(classes := st.classes + [cid]), EnrolledIn(course.name)), table[cid := course])
      else Step(CourseFull, st, table)
  }

  /** The position of the first held course carrying `code`. */
  function FirstWithCode(classes: seq<CourseId>, table: CourseTable, code: string): (r: Option<nat>)
    requires RefsIn(classes, table)
    ensures r.Some? ==> r.value < |classes| && table[classes[r.value]].code == code
    ensures r.Some? ==> forall j :: 0 <= j < r.value ==> table[classes[j]].code != code
    ensures r.None? <==> !HoldsCode(classes, table, code)
    decreases |classes|
  {
    if |classes| == 0 then None
    else if table[classes[0]].code == code then Some(0)
    else
      match FirstWithCode(classes[1..], table, code)
      case None => None
      case Some(i) => Some(i + 1)
  }

  function RemoveAt(s: seq<CourseId>, i: nat): (r: seq<CourseId>)
    requires i < |s|
    ensures |r| == |s| - 1
    ensures forall j :: 0 <= j < i ==> r[j] == s[j]
    ensures forall j :: i <= j < |r| ==> r[j] == s[j + 1]
  {
    s[..i] + s[i + 1..]
  }

  /** Removes the first held course with `code` and gives its seat back, without any
      check on the counter; with no match nothing changes. */
  function DropClass(st: Student, table: CourseTable, code: string): (r: Step<DropOutcome>)
    requires RefsIn(st.classes, table)
    ensures r.outcome == Dropped <==> HoldsCode(st.classes, table, code)
    ensures r.outcome == NotFound ==> r.student == st && r.table == table
    ensures r.outcome == Dropped ==>
      exists i :: 0 <= i < |st.classes| && DroppedAt(st, table, code, i, r)
    ensures SameCodes(table, r.table) && RefsIn(r.student.classes, r.table)
  {
    match FirstWithCode(st.classes, table, code)
    case None => Step(NotFound, st, table)
    case Some(i) =>
      var cid := st.classes[i];
      var course := table[cid].(enrolled := table[cid].enrolled - 1);
      var r := Step(Dropped, LogActivity(st.(classes := RemoveAt(st.classes, i)), DroppedCourse(course.name)), table[cid := course]);
      assert DroppedAt(st, table, code, i, r);
      r
  }

  /** What a successful drop of the entry at position `i` means: `i` is the first position
      holding `code`, that entry alone leaves the list, its course alone loses one seat,
      and one log entry is added. */
  predicate DroppedAt(st: Student, table: CourseTable, code: string, i: nat, r: Step<DropOutcome>)
    requires RefsIn(st.classes, table) && i < |st.classes|
  {
    var cid := st.classes[i];
    && table[cid].code == code
    && (forall j :: 0 <= j < i ==> table[st.classes[j]].code != code)
    && r.student.classes == RemoveAt(st.classes, i)
    && r.student == LogActivity(st, DroppedCourse(table[cid].name)).(classes := r.student.classes)
    && |r.table| == |table|
    && r.table[cid] == table[cid].(enrolled := table[cid].enrolled - 1)
    && (forall k :: 0 <= k < |table| && k != cid ==> r.table[k] == table[k])
  }

  /** Enrollment keeps the student invariant, and the class limit in particular. */
  lemma EnrollKeepsValid(st: Student, table: CourseTable, cid: CourseId)
    requires Valid(st, table) && cid < |table|
    ensures Valid(EnrollInClass(st, table, cid).student, EnrollInClass(st, table, cid).table)
  {
    var r := EnrollInClass(st, table, cid);
    if r.outcome == Enrolled {
      var cs := r.student.classes;
      forall i, j | 0 <= i < j < |cs|
        ensures r.table[cs[i]].code != r.table[cs[j]].code
      {
        if j == |cs| - 1 {
          assert cs[i] == st.classes[i];
          assert !HoldsCode(st.classes, table, table[cid].code);
        }
      }
    }
  }

  /** Dropping keeps the student invariant. */
  lemma DropKeepsValid(st: Student, table: CourseTable, code: string)
    requires Valid(st, table)
    ensures Valid(DropClass(st, table, code).student, DropClass(st, table, code).table)
  {
    var r := DropClass(st, table, code);
    if r.outcome == Dropped {
      var i :| 0 <= i < |st.classes| && DroppedAt(st, table, code, i, r);
      var cs := r.student.classes;
      forall a, b | 0 <= a < b < |cs|
        ensures r.table[cs[a]].code != r.table[cs[b]].code
      {
        var a' := if a < i then a else a + 1;
        var b' := if b < i then b else b + 1;
        assert cs[a] == st.classes[a'] && cs[b] == st.classes[b'];
      }
    }
  }

  /** Under the invariant the same course is never held twice. */
  lemma ValidNoDuplicateRefs(st: Student, table: CourseTable)
    requires Valid(st, table)
    ensures forall i, j :: 0 <= i < j < |st.classes| ==> st.classes[i] != st.classes[j]
  {
  }

  /** Round trip: a successful enrollment followed by dropping that course's code gives
      back the original class list and the original course table. */
  lemma EnrollThenDrop(st: Student, table: CourseTable, cid: CourseId)
    requires RefsIn(st.classes, table) && cid < |table|
    requires EnrollInClass(st, table, cid).outcome == Enrolled
    ensures var e := EnrollInClass(st, table, cid);
      var d := DropClass(e.student, e.table, table[cid].code);
      && d.outcome == Dropped
      && d.student.classes == st.classes
      && d.table == table
      && d.student.log == st.log + [EnrolledIn(table[cid].name), DroppedCourse(table[cid].name)]
  {
    var e := EnrollInClass(st, table, cid);
    var code := table[cid].code;
    var n := |st.classes|;
    assert e.student.classes[n] == cid;
    assert !HoldsCode(st.classes, table, code);
    var d := DropClass(e.student, e.table, code);
    var i :| 0 <= i < |e.student.classes| && DroppedAt(e.student, e.table, code, i, d);
    assert i == n;
    assert e.student.classes[..n] == st.classes;
    assert d.table == table;
  }
}
