# Course registration and weekly schedule — a Dafny model

This project models the enrollment and scheduling engine of `pbrs.py`:

- **Course**: a seat counter bounded by `max_students`, and an attendance ledger that only
  grows. It is keyed by student id and records one presence mark per call.
- **Student**: an id drawn from a shared, ever-increasing counter (`UOB-` plus the counter
  zero-padded to four digits). It also holds an ordered list of course references and an
  append-only activity log.
- **Enrollment** runs an ordered chain of checks: same course already held, class limit
  reached, course code already held. Only then does it ask the course for a seat.
- **Dropping** removes the first held course with the given code. It also hands that
  course's seat back.
- **Schedule**: four days (Sunday to Wednesday), each mapped to a row of four courses.
  One list of four slot labels is shared by every day. A day can be set as a holiday,
  which empties it. A lookup by slot label returns the first match. Days are scanned in
  declaration order and slots in ascending order.

The model is purely functional. Each mutating operation takes the state it changes and
returns the new state, paired with an outcome where the source reports one (a `bool` from
`enroll_student`, an outcome datatype for enrolling, dropping and setting a holiday).

Python object identity matters in the source. Courses are shared objects, and the
conflict check compares them by identity. So every course lives in one central table
(`seq<Course>`) and is referred to by its index (`CourseId`). Two references are the
"same object" exactly when their indices are equal. The decrement a drop performs on a
shared course becomes an update of that table entry.

Files:

| file | module | contents |
|---|---|---|
| `common.dfy` | `Common` | `Option`, `CourseId` |
| `course.dfy` | `Courses` | `Course`, create / enroll / attendance |
| `student_ids.dfy` | `StudentIds` | zero-padded decimal ids and their parser |
| `student.dfy` | `Students` | `Student`, set / enroll / drop / log, student invariant, round trip |
| `schedule.dfy` | `Schedules` | `Day`, `Schedule`, create / display / holiday / lookup |
| `registry.dfy` | `Registry` | all students plus the shared table; counters equal holders |

The model follows the code as written. Three points are worth knowing:

- `set_student` (pbrs.py:58-62) resets only the private grades. It leaves `classes` and
  the activity log as they were, so `SetStudent` does too.
- The conflict check (pbrs.py:66-68) compares course objects by identity only. A
  different course with an equal code is caught by the third check instead, as
  `AlreadyEnrolled`.
- `priority` is a free-form string. Credit hours and capacity are not validated
  (pbrs.py:18-25). So `CreateCourse` is valid exactly when the capacity is non-negative.

## Model

| member | source | states |
|---|---|---|
| Courses.CreateCourse | pbrs.py:18-25 | a (re)initialised course has counter 0 and an empty attendance map (no ids, so no marks for any id), keeps the given attributes (credit hours, capacity and priority default to 3, 25 and "Normal"), and satisfies `0 <= enrolled <= max` exactly when the capacity is non-negative |
| Courses.EnrollStudent | pbrs.py:27-33 | succeeds exactly when `enrolled < max_students`; success adds one seat, failure changes nothing; no other attribute changes; the capacity invariant is preserved |
| Courses.EnrollTimesFillsFreeSeats | pbrs.py:27-33 | `n` successive attempts on a valid course succeed exactly `min(n, free seats)` times, and the counter rises by that many and stays within capacity |
| Courses.FreshCourseAcceptsExactlyCapacity | pbrs.py:18-33 | a freshly created course of capacity `m` accepts exactly `m` of `m + k` attempts and rejects `k` |
| Courses.MarkAttendance | pbrs.py:35-38 | the mark lands at the end of that id's ledger, which is created if absent; every other id's ledger is unchanged; the ledger gains exactly that id as a key; nothing but the ledger changes |
| Courses.MarkAttendanceExtends | pbrs.py:35-38 | one mark never removes or rewrites any entry already recorded |
| Courses.MarkAllAppends | pbrs.py:35-38 | a series of marks for one id appears at the end of its ledger in call order |
| Courses.MarkAllFrame | pbrs.py:35-38 | a series of marks for one id leaves every other id's ledger unchanged |
| Courses.MarkAllKeys | pbrs.py:35-38 | a series of marks drops no id from the ledger and adds exactly the marked id (when at least one mark is made) |
| Courses.MarkAllExtends | pbrs.py:35-38 | after a series of marks every earlier ledger is a prefix of the new one |
| Courses.ShowAttendance | pbrs.py:40-41 | the snapshot has exactly the ledger's ids, with each id's marks |
| Courses.FreshAttendanceSnapshot | pbrs.py:18-41 | a freshly created course marked only for one id shows exactly that id with its marks in call order (as the demo prints `{'UOB-0001': [True, False]}`) |
| StudentIds.DecimalValue | pbrs.py:59 | the decimal numeral of `n` denotes `n` |
| StudentIds.LeadingZeroValue | pbrs.py:59 | a leading zero leaves the denoted number unchanged |
| StudentIds.PadToValue | pbrs.py:59 | left-padding with zeros to any width leaves the denoted number unchanged |
| StudentIds.PadValue | pbrs.py:59 | the zero-padded numeral still denotes the counter value |
| StudentIds.ParseStudentId | pbrs.py:49-59 | every id is the prefix `UOB-` followed by at least four digits, and parsing it gives back the counter it was made from |
| StudentIds.StudentIdInjective | pbrs.py:59-60 | two counter values give the same id exactly when they are equal |
| Students.NewStudent | pbrs.py:50-56 | a new student has no id or name, no classes, an empty log and the default class limit of 5 |
| Students.SetStudent | pbrs.py:58-62 | the assigned id is the one made from the current counter (which parses back to it, by `StudentIds.ParseStudentId`), the counter advances by one, and classes, log and limit are untouched |
| Students.SetStudents | pbrs.py:58-60 | the i-th of a series of registrations gets the id for counter value `start + i` and the i-th name, and the counter advances by the number of registrations |
| Students.CountedIdsDistinct | pbrs.py:59-60 | students whose ids come from consecutive counter values have pairwise distinct ids |
| Students.SetStudentsDistinctIds | pbrs.py:58-60 | a series of registrations hands out pairwise distinct ids |
| Students.LogActivity | pbrs.py:83-84 | exactly one entry is appended at the end of the log; nothing else changes |
| Students.EnrollInClass | pbrs.py:64-81 | the outcome is determined by the ordered checks (same course held; class limit reached; code held; course full), each as an if-and-only-if; every failure leaves student and table unchanged; success appends the course at the end of the list, adds one seat to that course only, and appends one log entry |
| Students.FirstWithCode | pbrs.py:90-91 | finds the first held course with the code, and finds none exactly when no held course has it |
| Students.DropClass | pbrs.py:89-96 | with a held code: the first matching entry alone is removed, that course alone loses one seat, and one log entry is appended; without one: nothing changes |
| Students.EnrollKeepsValid | pbrs.py:64-81 | enrollment preserves the student invariant: valid references, at most `max_classes` classes, unique codes |
| Students.DropKeepsValid | pbrs.py:89-96 | dropping preserves the student invariant |
| Students.ValidNoDuplicateRefs | pbrs.py:66-68 | under the invariant no course is held twice |
| Students.EnrollThenDrop | pbrs.py:76-93 | a successful enrollment followed by a drop of that code restores the class list and the whole course table, leaving one enroll and one drop entry in the log |
| Schedules.ParseDay | pbrs.py:146-147 | recognises exactly the four day labels |
| Schedules.ParseDayName | pbrs.py:106-111 | each day's label parses back to that day |
| Schedules.CreateSchedule | pbrs.py:105-130 | the grid is well formed with the four fixed slot labels; cell (day k, slot i) refers to the fresh course made from seed `4k + i` with the default credit hours (3) and capacity (25) |
| Schedules.CreateScheduleCellsDistinct | pbrs.py:106-111 | two grid cells refer to the same course exactly when they are the same cell |
| Schedules.WellFormedRowsFit | pbrs.py:105-112 | a grid of the shape `create_schedule` builds has no row longer than the slot labels |
| Schedules.DisplaySchedule | pbrs.py:132-144 | whenever the displayed day's row fits the slot labels: an unknown or empty day renders as "no courses"; otherwise there is one line per course in the row, pairing slot label `i` with the course in slot `i` |
| Schedules.SetHoliday | pbrs.py:146-150 | a known day's row becomes empty and every other day is unchanged; an unknown label yields `InvalidDay` and changes nothing |
| Schedules.HolidayKeepsWellFormed | pbrs.py:146-150 | a holiday keeps the grid well formed |
| Schedules.HolidayDisplay | pbrs.py:132-150 | a holiday keeps rows fitting the slot labels; afterwards the named day renders as "no courses", and every other label renders as before |
| Schedules.FirstSlot | pbrs.py:154-155 | finds the first slot of a row whose label is the time, or none when no slot has it |
| Schedules.FindSlotIn | pbrs.py:152-157 | returns a matching (day, slot) that is lexicographically first in scan order, and nothing exactly when no pair matches |
| Schedules.Lookup | pbrs.py:152-157 | for any grid whose rows fit the slot labels (missing days scan as empty), the nested scan returns the course found by the reference first-match definition, and a course exactly when some slot matches |
| Schedules.HolidayLookup | pbrs.py:146-157 | after a holiday, lookup behaves as if the emptied day were not scanned at all |
| Schedules.EmptyDaysLookup | pbrs.py:152-157 | when every scanned day is empty the lookup finds nothing |
| Schedules.HolidayFallsThroughToMonday | pbrs.py:112-157 | on the fixture grid the second slot label yields Sunday's course, and after a Sunday holiday it yields Monday's course in that slot |
| Registry.Admit | pbrs.py:58-60 | admitting a student appends one student, keeps the table and the others, and advances the counter |
| Registry.Enroll | pbrs.py:64-81 | only the enrolling student changes among all students |
| Registry.Drop | pbrs.py:89-96 | only the dropping student changes among all students, even though a shared course is updated |
| Registry.HoldersUpdate | pbrs.py:77-93 | replacing one student changes a course's holder count only by what that student held before and after |
| Registry.OpeningIsConsistent | pbrs.py:105-130 | a freshly built schedule with no students satisfies the registry invariant (every counter equals its holder count) |
| Registry.AdmitKeepsConsistent | pbrs.py:58-62 | admitting a student preserves the registry invariant |
| Registry.EnrollKeepsConsistent | pbrs.py:64-81 | any enrollment attempt preserves the registry invariant |
| Registry.DropKeepsConsistent | pbrs.py:89-96 | any drop preserves the registry invariant, so the unguarded decrement never makes a counter negative |
| Registry.RemoveAtMembership | pbrs.py:92 | removing one entry from a duplicate-free list removes exactly that course |
| Registry.ApplyAll | pbrs.py:58-96 | any series of admissions, enrollments and drops preserves the registry invariant |
| Registry.RequestsKeepCountersExact | pbrs.py:27-96 | from a freshly built schedule, every counter always equals the number of students holding the course and stays within `0..max_students` |
| Registry.FirstStudentWalkthrough | pbrs.py:160-188 | the first student gets id `UOB-0001`; enrolling in the course in Sunday's first slot succeeds with counter 1; two marks are recorded as `[true, false]`; dropping the course brings the counter back to 0 with no classes |

## Left out

- The printed alert for a full course (pbrs.py:32) and every other `print`. They are
  output only.
- The script at module level (pbrs.py:160-208) is not modelled as a program.
  `Registry.FirstStudentWalkthrough` restates its first steps as a property.
- `show_course`, `show_student`, `__repr__` and `show_activity_log` are display strings.
  The log is modelled as a sequence of abstract `Activity` events. A rendered schedule
  line carries the slot label and the course id instead of the course's text.
- The `AbstractCourse` base class is scaffolding with a single implementation.
- The private `__grades` dictionary is written but never read.
- The sixteen seeded course names and codes are fixture data. `CreateSchedule` takes
  them as a parameter and keeps only the 4 × 4 shape and the four slot labels.
- The class-level id counter is global state. It is passed in and returned explicitly.
- Direct writes to attributes from outside the class are not modelled. Examples are
  replacing `classes`, changing `max_classes`, or calling `create_course` again on a
  course students already hold. The registry invariant assumes counters change only
  through enroll and drop.
- Python lets the ledger key be any hashable value, including the `None` id of a student
  who was never set. The model keys ledgers by strings.
- Schedules.Lookup: requires that no row is longer than the slot labels. This is stronger
  than the source needs. A longer row raises `IndexError` (pbrs.py:155) only when the scan
  reaches a slot past the labels before any match; otherwise the source returns the match.
  That error path is not modelled. No such row can arise: `create_schedule` builds a 4 × 4
  grid and `set_holiday` only empties a row.
- Schedules.DisplaySchedule: requires that the displayed day's row is no longer than the
  slot labels. A longer row there raises `IndexError` at pbrs.py:138, which is not
  modelled. Rows of other days are not indexed, so they may be of any length.
- Courses.ShowAttendance: returns the ledger as a value. The source returns the live
  dictionary, so a caller could mutate it; that aliasing is not modelled.
