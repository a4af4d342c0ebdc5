/** The older attendance page: the absent count of a course, the colour band of the overall
    figure, and the colour class of a day-wise status. Its overall percentage is the same
    rule as the current page's, `AttendanceMetrics.OverallPercentage`. */
module AttendanceLegacy {
  import opened Wrappers
  import opened Strings
  import opened AttendanceMetrics

  /** `Math.max(totalClasses - presentClasses, 0)` */
  function Absent(c: Course): int {
    if c.totalClasses - c.presentClasses > 0 then c.totalClasses - c.presentClasses else 0
  }

  /** The absent count is never negative, is total − present for a consistent record, and
      is 0 exactly when every held class was attended (or over-counted). */
  lemma AbsentMeaning(c: Course)
    ensures Absent(c) >= 0
    ensures ValidCourse(c) ==> Absent(c) + c.presentClasses == c.totalClasses
    ensures Absent(c) == 0 <==> c.presentClasses >= c.totalClasses
    ensures Absent(c) <= c.totalClasses
  {
  }

  /** The three colours of the overall progress bar. */
  datatype Band = Emerald | Amber | Red

  function BandRank(b: Band): nat {
    match b
    case Red => 0
    case Amber => 1
    case Emerald => 2
  }

  /** `overallColor`: emerald from 75, amber from 60, red below. */
  function OverallColor(pct: real): Band {
    if pct >= 75.0 then Emerald else if pct >= 60.0 then Amber else Red
  }

  /** A higher percentage never gets a worse colour. */
  lemma OverallColorMonotone(p1: real, p2: real)
    requires p1 <= p2
    ensures BandRank(OverallColor(p1)) <= BandRank(OverallColor(p2))
  {
  }

  /** A percentage present/total·100 reaches `k` exactly when 100·present ≥ k·total. */
  lemma PercentAtLeast(p: nat, t: nat, k: real)
    requires t > 0
    ensures (p as real / t as real) * 100.0 >= k <==> 100.0 * (p as real) >= k * (t as real)
  {
    var q := p as real / t as real;
    assert q * (t as real) == p as real;
    var lhs := q * 100.0;
    assert lhs * (t as real) == 100.0 * (p as real);
    if lhs >= k {
      assert lhs * (t as real) >= k * (t as real);
    } else {
      assert lhs * (t as real) < k * (t as real);
    }
  }

  /** In terms of class counts: the bar is emerald exactly when some course has held
      classes and 100·present ≥ 75·total over those courses, and red whenever none has. */
  lemma OverallColorExact(courses: seq<Course>)
    ensures (forall i :: 0 <= i < |courses| ==> courses[i].totalClasses == 0) ==>
              OverallColor(OverallPercentage(courses)) == Red
    ensures OverallColor(OverallPercentage(courses)) == Emerald <==>
              SumTotal(Held(courses)) > 0 &&
              100 * SumPresent(Held(courses)) >= 75 * SumTotal(Held(courses))
  {
    OverallPercentageCases(courses);
    var t := SumTotal(Held(courses));
    var p := SumPresent(Held(courses));
    if t > 0 {
      assert |Held(courses)| != 0;
      assert OverallPercentage(courses) == (p as real / t as real) * 100.0;
      PercentAtLeast(p, t, 75.0);
    } else {
      assert OverallPercentage(courses) == 0.0;
    }
  }

  /** The colour class of a day-wise status cell. */
  datatype StatusStyle = PresentStyle | AbsentStyle | OtherStyle

  /** `d.status?.toUpperCase() === "PRESENT"`, then `"ABSENT"`, else neither. */
  function ClassifyStatus(status: Option<string>): StatusStyle {
    if status.Some? && ToUpper(status.value) == "PRESENT" then PresentStyle
    else if status.Some? && ToUpper(status.value) == "ABSENT" then AbsentStyle
    else OtherStyle
  }

  /** The classification ignores ASCII case, and a missing status is neither. */
  lemma ClassifyStatusIgnoresCase(s: string)
    ensures ClassifyStatus(Some(ToLower(s))) == ClassifyStatus(Some(s))
    ensures ClassifyStatus(Some(ToUpper(s))) == ClassifyStatus(Some(s))
    ensures ClassifyStatus(None) == OtherStyle
  {
    UpperOfLower(s);
    assert ToUpper(ToUpper(s)) == ToUpper(s);
  }

  /** "present" in any case is classified present and "absent" in any case absent. */
  lemma ClassifyStatusExamples()
    ensures ClassifyStatus(Some("Present")) == PresentStyle
    ensures ClassifyStatus(Some("absent")) == AbsentStyle
    ensures ClassifyStatus(Some("Leave")) == OtherStyle
  {
    assert ToUpper("Present") == "PRESENT";
    assert ToUpper("absent") == "ABSENT";
    assert ToUpper("Leave") == "LEAVE";
  }
}
