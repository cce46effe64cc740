/** The weekly grid: four day labels, each mapped to a row of courses, and one shared
    list of four slot labels (slot `i` of every day is labelled `times[i]`). */
module Schedules {
  import opened Common
  import opened Courses

  datatype Day = Sunday | Monday | Tuesday | Wednesday

  /** The days in declaration order, which is also the order lookups scan them in. */
  const AllDays: seq<Day> := [Sunday, Monday, Tuesday, Wednesday]

  const SlotTimes: seq<string> :=
    ["8:30 AM - 10:30 AM", "10:30 AM - 12:30 PM", "12:30 PM - 2:30 PM", "2:30 PM - 4:30 PM"]

  const SlotCount: nat := 4

  function DayName(d: Day): string {
    match d
    case Sunday => "Sunday"
    case Monday => "Monday"
    case Tuesday => "Tuesday"
    case Wednesday => "Wednesday"
  }

  /** Position of a day in declaration order. */
  function Ord(d: Day): (k: nat)
    ensures k < |AllDays| && AllDays[k] == d
  {
    match d
    case Sunday => 0
    case Monday => 1
    case Tuesday => 2
    case Wednesday => 3
  }

  /** Recognises exactly the four day labels. */
  function ParseDay(dayName: string): (r: Option<Day>)
    ensures r.Some? ==> DayName(r.value) == dayName
    ensures r.None? ==> forall d :: DayName(d) != dayName
  {
    if dayName == "Sunday" then Some(Sunday)
    else if dayName == "Monday" then Some(Monday)
    else if dayName == "Tuesday" then Some(Tuesday)
    else if dayName == "Wednesday" then Some(Wednesday)
    else None
  }

  /** Round trip between a day and its label. */
  lemma ParseDayName(d: Day)
    ensures ParseDay(DayName(d)) == Some(d)
  {
  }

  datatype Schedule = Schedule(courses: map<Day, seq<CourseId>>, times: seq<string>)

  /** A day's row, empty for a day that has no entry (`dict.get(day, [])`). */
  function Row(s: Schedule, d: Day): seq<CourseId> {
    if d in s.courses then s.courses[d] else []
  }

  /** The row shown for a day label; an unknown label has no courses. */
  function RowFor(s: Schedule, dayName: string): seq<CourseId> {
    match ParseDay(dayName)
    case None => []
    case Some(d) => Row(s, d)
  }

  /** The grid shape: every day present, four slot labels, and each row either full or emptied. */
  predicate WellFormed(s: Schedule) {
    && (forall d: Day :: d in s.courses)
    && |s.times| == SlotCount
    && (forall d: Day :: |Row(s, d)| == 0 || |Row(s, d)| == |s.times|)
  }

  /** No row is longer than the list of slot labels: the condition under which rendering a
      day and looking up a slot never index past the labels (shorter rows, empty rows and
      missing days are all fine). */
  predicate RowsFit(s: Schedule) {
    forall d: Day :: |Row(s, d)| <= |s.times|
  }

  /** Every grid of the fixed shape has rows that fit. */
  lemma WellFormedRowsFit(s: Schedule)
    requires WellFormed(s)
    ensures RowsFit(s)
  {
  }

  /** What the fixture supplies for one grid cell. */
  datatype Seed = Seed(name: string, code: string, priority: string)

  function Cells(k: nat): (r: seq<CourseId>)
    ensures |r| == SlotCount && forall i :: 0 <= i < SlotCount ==> r[i] == k * SlotCount + i
  {
    seq(SlotCount, i => k * SlotCount + i)
  }

  /** Builds the grid from sixteen seeds, day by day and slot by slot: cell (day k, slot i)
      holds a fresh course made from seed `4k + i` with the default credit hours and capacity. */
  function CreateSchedule(seeds: seq<Seed>): (r: (Schedule, CourseTable))
    requires |seeds| == |AllDays| * SlotCount
    ensures WellFormed(r.0) && r.0.times == SlotTimes
    ensures |r.1| == |seeds|
    ensures forall k :: 0 <= k < |seeds| ==>
      r.1[k] == CreateCourse(seeds[k].name, seeds[k].code, priority := seeds[k].priority)
    ensures forall k :: 0 <= k < |seeds| ==>
      && r.1[k].creditHours == DefaultCreditHours && r.1[k].maxStudents == DefaultMaxStudents
      && Courses.Valid(r.1[k]) && r.1[k].enrolled == 0
    ensures forall d: Day :: Row(r.0, d) == Cells(Ord(d))
    ensures forall d: Day, i :: 0 <= i < |Row(r.0, d)| ==> Row(r.0, d)[i] < |r.1|
  {
    var grid := map d | d in AllDays :: Cells(Ord(d));
    assert forall d: Day :: d in grid by {
      forall d: Day ensures d in grid {
        assert AllDays[Ord(d)] == d;
      }
    }
    assert forall d: Day, i :: 0 <= i < SlotCount ==> Cells(Ord(d))[i] < |seeds| by {
      forall d: Day, i | 0 <= i < SlotCount ensures Cells(Ord(d))[i] < |seeds| {
        assert Ord(d) * SlotCount <= 3 * SlotCount;
      }
    }
    var table := seq(|seeds|, k requires 0 <= k < |seeds| =>
      CreateCourse(seeds[k].name, seeds[k].code, priority := seeds[k].priority));
    (Schedule(grid, SlotTimes), table)
  }

  /** Each course object sits in exactly one grid cell. */
  lemma CreateScheduleCellsDistinct(seeds: seq<Seed>, d1: Day, i1: nat, d2: Day, i2: nat)
    requires |seeds| == |AllDays| * SlotCount
    requires i1 < SlotCount && i2 < SlotCount
    ensures var s := CreateSchedule(seeds).0;
      Row(s, d1)[i1] == Row(s, d2)[i2] <==> d1 == d2 && i1 == i2
  {
    var s := CreateSchedule(seeds).0;
    assert Row(s, d1)[i1] == Ord(d1) * SlotCount + i1 by {
      assert Row(s, d1) == Cells(Ord(d1));
    }
    assert Row(s, d2)[i2] == Ord(d2) * SlotCount + i2 by {
      assert Row(s, d2) == Cells(Ord(d2));
    }
    if Row(s, d1)[i1] == Row(s, d2)[i2] {
      assert Ord(d1) == Ord(d2);
      assert d1 == AllDays[Ord(d1)];
    }
  }

  datatype SlotLine = SlotLine(time: string, course: CourseId)

  /** A rendered day: the "No courses available." case or one line per slot. */
  datatype DayView = NoCourses | Slots(lines: seq<SlotLine>)

  /** Renders one day; only that day's row is indexed against the slot labels. */
  function DisplaySchedule(s: Schedule, dayName: string): (r: DayView)
    requires |RowFor(s, dayName)| <= |s.times|
    ensures r.NoCourses? <==> |RowFor(s, dayName)| == 0
    ensures r.Slots? ==> |r.lines| == |RowFor(s, dayName)|
    ensures r.Slots? ==> forall i :: 0 <= i < |r.lines| ==> r.lines[i] == SlotLine(s.times[i], RowFor(s, dayName)[i])
  {
    var row := RowFor(s, dayName);
    if |row| == 0 then NoCourses
    else Slots(seq(|row|, i requires 0 <= i < |row| => SlotLine(s.times[i], row[i])))
  }

  datatype HolidayOutcome = HolidaySet | InvalidDay

  /** Empties a known day's row; an unknown label changes nothing. */
  function SetHoliday(s: Schedule, dayName: string): (r: (HolidayOutcome, Schedule))
    ensures r.0 == HolidaySet <==> ParseDay(dayName).Some? && ParseDay(dayName).value in s.courses
    ensures r.0 == InvalidDay ==> r.1 == s
    ensures r.0 == HolidaySet ==> Row(r.1, ParseDay(dayName).value) == []
    ensures forall d :: ParseDay(dayName) != Some(d) ==> Row(r.1, d) == Row(s, d)
    ensures r.1.courses.Keys == s.courses.Keys && r.1.times == s.times
  {
    match ParseDay(dayName)
    case Some(d) =>
      if d in s.courses then (HolidaySet, s.(courses := s.courses[d := []])) else (InvalidDay, s)
    case None => (InvalidDay, s)
  }

  lemma HolidayKeepsWellFormed(s: Schedule, dayName: string)
    requires WellFormed(s)
    ensures WellFormed(SetHoliday(s, dayName).1)
  {
  }

  /** After a holiday request the day renders as "No courses available." (whether the label
      named a day or not), and every other label renders as before. */
  lemma HolidayDisplay(s: Schedule, dayName: string, other: string)
    requires RowsFit(s)
    ensures RowsFit(SetHoliday(s, dayName).1)
    ensures DisplaySchedule(SetHoliday(s, dayName).1, dayName) == NoCourses
    ensures ParseDay(other) != ParseDay(dayName) ==>
      DisplaySchedule(SetHoliday(s, dayName).1, other) == DisplaySchedule(s, other)
  {
    var s' := SetHoliday(s, dayName).1;
    if ParseDay(other) != ParseDay(dayName) {
      assert RowFor(s', other) == RowFor(s, other);
    }
  }

  /** Slot `i` of `days[k]` holds a course and carries the label `time`. */
  predicate IsMatch(s: Schedule, days: seq<Day>, k: int, i: int, time: string) {
    && 0 <= k < |days|
    && 0 <= i < |Row(s, days[k])|
    && i < |s.times| && s.times[i] == time
  }

  /** The first slot of `row` labelled `time`. */
  function FirstSlot(row: seq<CourseId>, times: seq<string>, time: string): (r: Option<nat>)
    ensures r.Some? ==> r.value < |row| && r.value < |times| && times[r.value] == time
    ensures r.Some? ==> forall j :: 0 <= j < r.value && j < |times| ==> times[j] != time
    ensures r.None? ==> forall j :: 0 <= j < |row| && j < |times| ==> times[j] != time
    decreases |row|
  {
    if |row| == 0 then None
    else
      var prev := FirstSlot(row[..|row| - 1], times, time);
      if prev.Some? then prev
      else if |row| - 1 < |times| && times[|row| - 1] == time then Some(|row| - 1)
      else None
  }

  /** The first (day, slot) position labelled `time`, scanning `days` in order and each row
      by ascending slot. */
  function FindSlotIn(s: Schedule, days: seq<Day>, time: string): (r: Option<(nat, nat)>)
    ensures r.Some? ==> IsMatch(s, days, r.value.0, r.value.1, time)
    ensures r.Some? ==> forall k, i :: IsMatch(s, days, k, i, time) ==>
      r.value.0 < k || (r.value.0 == k && r.value.1 <= i)
    ensures r.None? <==> forall k, i :: !IsMatch(s, days, k, i, time)
    decreases |days|
  {
    if |days| == 0 then None
    else
      match FirstSlot(Row(s, days[0]), s.times, time)
      case Some(i) =>
        assert IsMatch(s, days, 0, i, time);
        Some((0, i))
      case None =>
        var rest := FindSlotIn(s, days[1..], time);
        assert forall k, i :: IsMatch(s, days[1..], k, i, time) <==> IsMatch(s, days, k + 1, i, time);
        assert forall k, i :: IsMatch(s, days, k, i, time) ==> k >= 1 && IsMatch(s, days[1..], k - 1, i, time);
        match rest
        case None => None
        case Some(p) => Some((p.0 + 1, p.1))
  }

  /** The course at the first matching position among `days`. */
  function GetItemIn(s: Schedule, days: seq<Day>, time: string): Option<CourseId> {
    match FindSlotIn(s, days, time)
    case None => None
    case Some(p) => Some(Row(s, days[p.0])[p.1])
  }

  /** `schedule[time]`: the course at the first matching (day, slot). */
  function GetItem(s: Schedule, time: string): Option<CourseId> {
    GetItemIn(s, AllDays, time)
  }

  /** Lookup scanning the grid with loops, days in declaration order, slots ascending;
      a day without an entry is scanned as an empty row. */
  method Lookup(s: Schedule, time: string) returns (r: Option<CourseId>)
    requires RowsFit(s)
    ensures r == GetItem(s, time)
    ensures r.Some? <==> exists k, i :: IsMatch(s, AllDays, k, i, time)
  {
    var k := 0;
    while k < |AllDays|
      invariant 0 <= k <= |AllDays|
      invariant forall k', i :: 0 <= k' < k ==> !IsMatch(s, AllDays, k', i, time)
    {
      var row := Row(s, AllDays[k]);
      var i := 0;
      while i < |row|
        invariant 0 <= i <= |row|
        invariant forall i' :: 0 <= i' < i ==> !IsMatch(s, AllDays, k, i', time)
      {
        if s.times[i] == time {
          assert IsMatch(s, AllDays, k, i, time);
          return Some(row[i]);
        }
        i := i + 1;
      }
      k := k + 1;
    }
    return None;
  }

  /** Days in `days` other than `d`, in the same order. */
  function Without(days: seq<Day>, d: Day): (r: seq<Day>)
    ensures forall x :: x in r <==> x in days && x != d
    decreases |days|
  {
    if |days| == 0 then []
    else if days[0] == d then Without(days[1..], d)
    else [days[0]] + Without(days[1..], d)
  }

  /** Scanning `days` is: the first slot of the first day if it matches, else the rest. */
  lemma GetItemInUnfold(s: Schedule, days: seq<Day>, time: string)
    requires |days| > 0
    ensures GetItemIn(s, days, time) ==
      match FirstSlot(Row(s, days[0]), s.times, time)
      case Some(i) => Some(Row(s, days[0])[i])
      case None => GetItemIn(s, days[1..], time)
  {
  }

  /** An emptied day contributes nothing: after a holiday the lookup behaves as if that day
      were not in the scan at all, so it falls through to the next day's course. */
  lemma {:induction false} HolidayLookup(s: Schedule, dayName: string, days: seq<Day>, time: string)
    requires SetHoliday(s, dayName).0 == HolidaySet
    ensures GetItemIn(SetHoliday(s, dayName).1, days, time) == GetItemIn(s, Without(days, ParseDay(dayName).value), time)
    decreases |days|
  {
    var s' := SetHoliday(s, dayName).1;
    var d := ParseDay(dayName).value;
    if |days| > 0 {
      HolidayLookup(s, dayName, days[1..], time);
      GetItemInUnfold(s', days, time);
      if days[0] == d {
        assert FirstSlot(Row(s', days[0]), s'.times, time).None?;
      } else {
        var w := Without(days, d);
        assert w[0] == days[0] && w[1..] == Without(days[1..], d);
        GetItemInUnfold(s, w, time);
      }
    }
  }

  /** A lookup among days that are all empty finds nothing. */
  lemma EmptyDaysLookup(s: Schedule, days: seq<Day>, time: string)
    requires forall k :: 0 <= k < |days| ==> Row(s, days[k]) == []
    ensures GetItemIn(s, days, time) == None
  {
  }

  /** With the fixture grid, the 10:30 slot yields Sunday's course; once Sunday is a
      holiday it yields Monday's course in that slot instead. */
  lemma HolidayFallsThroughToMonday(seeds: seq<Seed>)
    requires |seeds| == |AllDays| * SlotCount
    ensures GetItem(CreateSchedule(seeds).0, SlotTimes[1]) == Some(1)
    ensures GetItem(SetHoliday(CreateSchedule(seeds).0, "Sunday").1, SlotTimes[1]) == Some(5)
  {
    var s := CreateSchedule(seeds).0;
    var t := SlotTimes[1];
    assert SlotTimes[0] != t by {
      assert SlotTimes[0][0] != t[0];
    }
    assert Row(s, Sunday) == Cells(0) && Row(s, Monday) == Cells(1);
    FirstMatchAtSlot(s, AllDays, t);
    assert ParseDay("Sunday") == Some(Sunday);
    HolidayLookup(s, "Sunday", AllDays, t);
    var rest := Without(AllDays, Sunday);
    assert AllDays[0] == Sunday && AllDays[1] == Monday;
    assert rest[0] == Monday by {
      assert rest == Without(AllDays[1..], Sunday);
      assert AllDays[1..][0] == Monday;
    }
    FirstMatchAtSlot(s, rest, t);
  }

  /** When slot 1 of the first day is labelled `time` and slot 0 is not, the lookup
      returns the first day's slot-1 course. */
  lemma FirstMatchAtSlot(s: Schedule, days: seq<Day>, time: string)
    requires |days| > 0 && |Row(s, days[0])| > 1
    requires |s.times| > 1 && s.times[0] != time && s.times[1] == time
    ensures GetItemIn(s, days, time) == Some(Row(s, days[0])[1])
  {
    assert IsMatch(s, days, 0, 1, time);
  }
}
