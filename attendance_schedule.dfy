/** The upcoming-classes view of the attendance page: rows of the timetable are matched to
    one course by a case-insensitive substring test and rewritten into day-wise entries, with
    the date turned from "DD/MM/YYYY" into "YYYY-MM-DD" and the time slot taken from the text
    after the first ':'. */
module AttendanceSchedule {
  import opened Wrappers
  import opened Strings
  import opened Seqs
  import opened AttendanceMetrics

  /** One timetable row. A field the endpoint leaves out is the empty string. */
  datatype ScheduleItem = ScheduleItem(
    courseName: string,
    courseCode: string,
    lectureDate: string,
    dateTime: string)

  /** One entry of a day-wise list; `null` fields are `None`. */
  datatype DaywiseEntry = DaywiseEntry(
    date: Option<string>,
    day: Option<string>,
    timeSlot: Option<string>,
    status: Option<string>,
    isUpcoming: bool)

  /** The filter of `handleOpenSchedule`, with its three disjuncts as written. */
  predicate MatchesCourse(course: Course, cls: ScheduleItem) {
    var targetCode := ToLower(course.courseCode);
    var targetName := ToLower(course.courseName);
    var clsName := ToLower(cls.courseName);
    var clsCode := ToLower(cls.courseCode);
    (targetCode != "" && Contains(clsCode, targetCode))
    || (targetName != "" && Contains(clsName, targetName))
    || (targetName != "" && clsName == targetName)
  }

  /** A row matches exactly when its code contains the course's non-empty code or its name
      contains the course's non-empty name, ignoring ASCII case; the exact-name test adds
      nothing. */
  lemma MatchesCourseIff(course: Course, cls: ScheduleItem)
    ensures MatchesCourse(course, cls) <==>
              (course.courseCode != "" && Contains(ToLower(cls.courseCode), ToLower(course.courseCode)))
              || (course.courseName != "" && Contains(ToLower(cls.courseName), ToLower(course.courseName)))
  {
    ContainsSelf(ToLower(cls.courseName));
  }

  /** Matching does not depend on the case of the row's code and name. */
  lemma MatchesCourseIgnoresCase(course: Course, cls: ScheduleItem)
    ensures MatchesCourse(course, cls) ==
            MatchesCourse(course, cls.(courseName := ToUpper(cls.courseName),
                                       courseCode := ToUpper(cls.courseCode)))
  {
    LowerOfUpper(cls.courseName);
    LowerOfUpper(cls.courseCode);
  }

  /** `const [dayPart, monthPart, yearPart] = lectureDate.split('/')`, a missing part
      being the empty string. */
  function DateParts(lectureDate: string): (string, string, string) {
    var parts := Split(lectureDate, '/');
    (parts[0], if |parts| > 1 then parts[1] else "", if |parts| > 2 then parts[2] else "")
  }

  /** "YYYY-MM-DD" when day, month and year parts are all non-empty, else "". */
  function NormalizeDate(lectureDate: string): string {
    var (d, m, y) := DateParts(lectureDate);
    if d != "" && m != "" && y != "" then y + "-" + m + "-" + d else ""
  }

  /** "DD/MM/YYYY" (and anything after a further '/') becomes "YYYY-MM-DD". */
  lemma {:induction false} NormalizeDateRewrites(d: string, m: string, y: string, tail: string)
    requires d != "" && m != "" && y != ""
    requires '/' !in d && '/' !in m && '/' !in y
    requires tail == "" || tail[0] == '/'
    ensures NormalizeDate(d + "/" + m + "/" + y + tail) == y + "-" + m + "-" + d
  {
    var s := d + "/" + m + "/" + y + tail;
    assert s == d + ['/'] + (m + ['/'] + (y + tail));
    SplitAtFirst(d, m + ['/'] + (y + tail), '/');
    SplitAtFirst(m, y + tail, '/');
    if tail == "" {
      assert y + tail == y;
      SplitFree(y, '/');
    } else {
      assert y + tail == y + ['/'] + tail[1..];
      SplitAtFirst(y, tail[1..], '/');
    }
  }

  /** A date without two '/' separators normalises to "". */
  lemma {:induction false} NormalizeDateTooFewParts(d: string, m: string)
    requires '/' !in d && '/' !in m
    ensures NormalizeDate(d) == ""
    ensures NormalizeDate(d + "/" + m) == ""
  {
    SplitFree(d, '/');
    SplitAtFirst(d, m, '/');
    SplitFree(m, '/');
  }

  /** An empty day, month or year part normalises to "". */
  lemma {:induction false} NormalizeDateEmptyPart(d: string, m: string, y: string)
    requires '/' !in d && '/' !in m && '/' !in y
    requires d == "" || m == "" || y == ""
    ensures NormalizeDate(d + "/" + m + "/" + y) == ""
  {
    var s := d + "/" + m + "/" + y;
    assert s == d + ['/'] + (m + ['/'] + y);
    SplitAtFirst(d, m + ['/'] + y, '/');
    SplitAtFirst(m, y, '/');
    SplitFree(y, '/');
  }

  /** The time slot: the trimmed text after the first ':' (later ':' kept), or the whole
      text when it has no ':'. */
  function TimeSlot(dateTime: string): string {
    if ':' in dateTime then
      var parts := Split(dateTime, ':');
      if |parts| > 1 then Trim(Join(parts[1..], ':')) else dateTime
    else
      dateTime
  }

  /** "DD/MM/YYYY : 02:20 PM - 03:10 PM" gives "02:20 PM - 03:10 PM": everything after the
      first ':', trimmed. */
  lemma TimeSlotAfterFirstColon(a: string, b: string)
    requires ':' !in a
    ensures TimeSlot(a + ":" + b) == Trim(b)
  {
    assert a + ":" + b == a + [':'] + b;
    assert (a + ":" + b)[|a|] == ':';
    SplitAtFirst(a, b, ':');
    assert Split(a + ":" + b, ':')[1..] == Split(b, ':');
    JoinSplit(b, ':');
  }

  /** A row mapped to an entry; the weekday name of (year, month, day) is a parameter. */
  function ToEntry(cls: ScheduleItem, weekday: (string, string, string) -> string): (e: DaywiseEntry)
    ensures e.status == Some("Scheduled") && e.isUpcoming
    ensures e.date == Some(NormalizeDate(cls.lectureDate))
    ensures e.timeSlot == Some(TimeSlot(cls.dateTime))
  {
    var (d, m, y) := DateParts(cls.lectureDate);
    var dateStr := NormalizeDate(cls.lectureDate);
    var dayName := if dateStr != "" then weekday(y, m, d) else "";
    DaywiseEntry(Some(dateStr), Some(dayName), Some(TimeSlot(cls.dateTime)), Some("Scheduled"), true)
  }

  /** The filter-then-map of `handleOpenSchedule`. */
  function NormalizeSchedule(course: Course, items: seq<ScheduleItem>,
                             weekday: (string, string, string) -> string): (r: seq<DaywiseEntry>)
    ensures |r| == Count(items, (cls: ScheduleItem) => MatchesCourse(course, cls))
    ensures forall i :: 0 <= i < |r| ==> r[i].status == Some("Scheduled") && r[i].isUpcoming
  {
    var kept := Filter(items, (cls: ScheduleItem) => MatchesCourse(course, cls));
    CountIsFilterLength(items, (cls: ScheduleItem) => MatchesCourse(course, cls));
    seq(|kept|, i requires 0 <= i < |kept| => ToEntry(kept[i], weekday))
  }

  /** Every matching row yields an entry, and every entry comes from a matching row. */
  lemma NormalizeScheduleMembers(course: Course, items: seq<ScheduleItem>,
                                 weekday: (string, string, string) -> string)
    ensures forall j :: 0 <= j < |items| && MatchesCourse(course, items[j]) ==>
              ToEntry(items[j], weekday) in NormalizeSchedule(course, items, weekday)
    ensures forall i :: 0 <= i < |NormalizeSchedule(course, items, weekday)| ==>
              exists j :: 0 <= j < |items| && MatchesCourse(course, items[j]) &&
                          NormalizeSchedule(course, items, weekday)[i] == ToEntry(items[j], weekday)
  {
    var p := (cls: ScheduleItem) => MatchesCourse(course, cls);
    var kept := Filter(items, p);
    var r := NormalizeSchedule(course, items, weekday);
    FilterMembers(items, p);
    forall j | 0 <= j < |items| && MatchesCourse(course, items[j])
      ensures ToEntry(items[j], weekday) in r
    {
      assert p(items[j]);
      var k :| 0 <= k < |kept| && kept[k] == items[j];
      assert r[k] == ToEntry(kept[k], weekday);
    }
    forall i | 0 <= i < |r|
      ensures exists j :: 0 <= j < |items| && MatchesCourse(course, items[j]) && r[i] == ToEntry(items[j], weekday)
    {
      assert r[i] == ToEntry(kept[i], weekday);
      assert kept[i] in items && p(kept[i]);
      var j :| 0 <= j < |items| && items[j] == kept[i];
      assert MatchesCourse(course, items[j]);
    }
  }
}
