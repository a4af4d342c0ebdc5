/** The attendance figures of the attendance page: the overall percentage weighted by class
    counts, how many more classes may be missed (`bunkAllowance`), how many must be attended
    (`classesToAttend`), the projected percentage with planned misses and its safe/unsafe
    verdict, and the composite key that identifies a course component.

    The page computes these with JavaScript numbers. Here every rule is exact: a fraction
    present/total compared with target/100 is compared by cross-multiplication,
    100·present ≥ target·total, and percentages are `real`s. */
module AttendanceMetrics {
  import opened Wrappers
  import opened Strings
  import opened Seqs

  /** One course component's attendance record, as the summary endpoint delivers it. */
  datatype Course = Course(
    courseCode: string,
    courseName: string,
    componentName: string,
    totalClasses: nat,
    presentClasses: nat,
    percentage: real,
    courseComponentId: Option<nat>,
    courseVariant: string,
    courseId: Option<nat>,
    sessionId: Option<nat>,
    studentId: Option<nat>)

  /** The record invariant the data model states: present classes never exceed total ones. */
  predicate ValidCourse(c: Course) {
    c.presentClasses <= c.totalClasses
  }

  // ---------------------------------------------------------------------------
  // courseKey

  /** `c.courseCode || c.courseId || "C"`: an empty code and a zero (falsy) id fall through. */
  function KeyPrefix(c: Course): (r: string)
    ensures r != ""
  {
    if c.courseCode != "" then c.courseCode
    else if c.courseId.Some? && c.courseId.value != 0 then NatToString(c.courseId.value)
    else "C"
  }

  /** `${prefix}-${componentName || ""}`. */
  function CourseKey(c: Course): string {
    KeyPrefix(c) + "-" + c.componentName
  }

  /** Two components of the same course code get the same key exactly when their
      component names agree. */
  lemma {:induction false} CourseKeySeparatesComponents(c1: Course, c2: Course)
    requires c1.courseCode == c2.courseCode != ""
    ensures CourseKey(c1) == CourseKey(c2) <==> c1.componentName == c2.componentName
  {
    var pre := c1.courseCode + "-";
    assert CourseKey(c1) == pre + c1.componentName;
    assert CourseKey(c2) == pre + c2.componentName;
    if CourseKey(c1) == CourseKey(c2) {
      assert c1.componentName == CourseKey(c1)[|pre|..];
      assert c2.componentName == CourseKey(c2)[|pre|..];
    }
  }

  /** When course codes are non-empty and contain no '-', equal keys mean equal codes and
      equal component names: the key identifies the course component. */
  lemma {:induction false} CourseKeyInjective(c1: Course, c2: Course)
    requires c1.courseCode != "" && c2.courseCode != ""
    requires '-' !in c1.courseCode && '-' !in c2.courseCode
    requires CourseKey(c1) == CourseKey(c2)
    ensures c1.courseCode == c2.courseCode && c1.componentName == c2.componentName
  {
    SplitAtFirst(c1.courseCode, c1.componentName, '-');
    SplitAtFirst(c2.courseCode, c2.componentName, '-');
    assert CourseKey(c1) == c1.courseCode + ['-'] + c1.componentName;
    assert CourseKey(c2) == c2.courseCode + ['-'] + c2.componentName;
    assert Split(CourseKey(c1), '-')[0] == c1.courseCode;
    assert Split(CourseKey(c2), '-')[0] == c2.courseCode;
    CourseKeySeparatesComponents(c1, c2);
  }

  // ---------------------------------------------------------------------------
  // overallPercentage

  predicate HasClasses(c: Course) {
    c.totalClasses > 0
  }

  function SumPresent(cs: seq<Course>): nat {
    if cs == [] then 0 else cs[0].presentClasses + SumPresent(cs[1..])
  }

  function SumTotal(cs: seq<Course>): nat {
    if cs == [] then 0 else cs[0].totalClasses + SumTotal(cs[1..])
  }

  /** The courses that have held at least one class (`courses.filter(c => c.totalClasses > 0)`). */
  function Held(courses: seq<Course>): seq<Course> {
    Filter(courses, HasClasses)
  }

  /** `overallPercentage`: total present over total held, as a percentage, over the courses
      that have held classes; 0 when there are none. */
  function OverallPercentage(courses: seq<Course>): real {
    var valid := Held(courses);
    if |valid| == 0 then 0.0
    else
      var present := SumPresent(valid);
      var total := SumTotal(valid);
      if total == 0 then 0.0 else (present as real / total as real) * 100.0
  }

  lemma {:induction false} SumPresentAppend(a: seq<Course>, b: seq<Course>)
    ensures SumPresent(a + b) == SumPresent(a) + SumPresent(b)
  {
    if a == [] {
      assert a + b == b;
    } else {
      assert (a + b)[0] == a[0] && (a + b)[1..] == a[1..] + b;
      SumPresentAppend(a[1..], b);
    }
  }

  lemma {:induction false} SumTotalAppend(a: seq<Course>, b: seq<Course>)
    ensures SumTotal(a + b) == SumTotal(a) + SumTotal(b)
  {
    if a == [] {
      assert a + b == b;
    } else {
      assert (a + b)[0] == a[0] && (a + b)[1..] == a[1..] + b;
      SumTotalAppend(a[1..], b);
    }
  }

  /** A course whose total is positive makes the total held positive. */
  lemma {:induction false} HeldTotalPositive(cs: seq<Course>)
    requires exists i :: 0 <= i < |cs| && cs[i].totalClasses > 0
    ensures SumTotal(Held(cs)) > 0
  {
    var rest := Held(cs[1..]);
    if cs[0].totalClasses > 0 {
      assert Held(cs) == [cs[0]] + rest;
      assert ([cs[0]] + rest)[0] == cs[0] && ([cs[0]] + rest)[1..] == rest;
    } else {
      var i :| 0 <= i < |cs| && cs[i].totalClasses > 0;
      assert cs[1..][i - 1].totalClasses > 0;
      HeldTotalPositive(cs[1..]);
      assert Held(cs) == [] + rest;
      assert [] + rest == rest;
    }
  }

  /** With no course that has held a class, the overall figure is 0; otherwise it is
      100·Σpresent/Σtotal over exactly the courses that have held classes. */
  lemma OverallPercentageCases(courses: seq<Course>)
    ensures (forall i :: 0 <= i < |courses| ==> courses[i].totalClasses == 0) ==>
              OverallPercentage(courses) == 0.0
    ensures (exists i :: 0 <= i < |courses| && courses[i].totalClasses > 0) ==>
              SumTotal(Held(courses)) > 0 &&
              OverallPercentage(courses) * (SumTotal(Held(courses)) as real)
                == 100.0 * (SumPresent(Held(courses)) as real)
  {
    if forall i :: 0 <= i < |courses| ==> courses[i].totalClasses == 0 {
      FilterNone(courses, HasClasses);
    }
    if exists i :: 0 <= i < |courses| && courses[i].totalClasses > 0 {
      HeldTotalPositive(courses);
      var t := SumTotal(Held(courses)) as real;
      var p := SumPresent(Held(courses)) as real;
      assert (p / t) * 100.0 * t == 100.0 * p;
    }
  }

  /** A course's own percentage, 100·present/total (0 when it has held no class). */
  function CoursePercent(c: Course): real {
    if c.totalClasses == 0 then 0.0
    else (c.presentClasses as real / c.totalClasses as real) * 100.0
  }

  /** Σ totalᵢ·percentᵢ: each course's percentage weighted by its class count. */
  function WeightedPercentSum(cs: seq<Course>): real {
    if cs == [] then 0.0
    else (cs[0].totalClasses as real) * CoursePercent(cs[0]) + WeightedPercentSum(cs[1..])
  }

  lemma {:induction false} WeightedSumIsPresentSum(cs: seq<Course>)
    requires forall i :: 0 <= i < |cs| ==> HasClasses(cs[i])
    ensures WeightedPercentSum(cs) == 100.0 * (SumPresent(cs) as real)
  {
    if cs != [] {
      WeightedSumIsPresentSum(cs[1..]);
      var c := cs[0];
      var t := c.totalClasses as real;
      var p := c.presentClasses as real;
      assert t > 0.0;
      assert t * ((p / t) * 100.0) == 100.0 * p;
    }
  }

  lemma HeldAllHaveClasses(courses: seq<Course>)
    ensures forall i :: 0 <= i < |Held(courses)| ==> HasClasses(Held(courses)[i])
  {
    FilterSatisfies(courses, HasClasses);
  }

  /** The overall figure is the average of the per-course percentages weighted by class
      counts (not their plain average). */
  lemma OverallIsWeightedAverage(courses: seq<Course>)
    requires exists i :: 0 <= i < |courses| && courses[i].totalClasses > 0
    ensures SumTotal(Held(courses)) > 0
    ensures OverallPercentage(courses)
            == WeightedPercentSum(Held(courses)) / (SumTotal(Held(courses)) as real)
  {
    HeldTotalPositive(courses);
    HeldAllHaveClasses(courses);
    WeightedSumIsPresentSum(Held(courses));
    var t := SumTotal(Held(courses)) as real;
    var p := SumPresent(Held(courses)) as real;
    assert t > 0.0;
    assert (p / t) * 100.0 == (100.0 * p) / t;
  }

  /** Courses that have held no class contribute nothing, wherever they stand in the list. */
  lemma OverallIgnoresEmptyCourse(a: seq<Course>, c: Course, b: seq<Course>)
    requires c.totalClasses == 0
    ensures OverallPercentage(a + [c] + b) == OverallPercentage(a + b)
  {
    FilterAppend(a + [c], b, HasClasses);
    FilterAppend(a, [c], HasClasses);
    FilterAppend(a, b, HasClasses);
    assert Filter([c], HasClasses) == [];
    assert Held(a + [c] + b) == Held(a + b);
  }

  /** Splitting one course's counts into two records with the same sums leaves the overall
      figure unchanged. */
  lemma OverallSplitInvariant(a: seq<Course>, c: Course, c1: Course, c2: Course, b: seq<Course>)
    requires c.totalClasses > 0 && c1.totalClasses > 0 && c2.totalClasses > 0
    requires c1.totalClasses + c2.totalClasses == c.totalClasses
    requires c1.presentClasses + c2.presentClasses == c.presentClasses
    ensures OverallPercentage(a + [c] + b) == OverallPercentage(a + [c1, c2] + b)
  {
    HeldAround(a, [c], b);
    HeldAround(a, [c1, c2], b);
    var fa, fb := Held(a), Held(b);
    assert Filter([c], HasClasses) == [c];
    assert Filter([c1, c2], HasClasses) == [c1, c2];
    SumsAround(fa, [c], fb);
    SumsAround(fa, [c1, c2], fb);
    assert SumTotal([c1, c2]) == c.totalClasses && SumPresent([c1, c2]) == c.presentClasses;
    var h1, h2 := Held(a + [c] + b), Held(a + [c1, c2] + b);
    assert SumPresent(h1) == SumPresent(h2) && SumTotal(h1) == SumTotal(h2);
    assert |h1| > 0 && |h2| > 0;
  }

  lemma HeldAround(a: seq<Course>, m: seq<Course>, b: seq<Course>)
    ensures Held(a + m + b) == Held(a) + Filter(m, HasClasses) + Held(b)
  {
    FilterAppend(a + m, b, HasClasses);
    FilterAppend(a, m, HasClasses);
  }

  lemma SumsAround(x: seq<Course>, m: seq<Course>, y: seq<Course>)
    ensures SumPresent(x + m + y) == SumPresent(x) + SumPresent(m) + SumPresent(y)
    ensures SumTotal(x + m + y) == SumTotal(x) + SumTotal(m) + SumTotal(y)
  {
    SumPresentAppend(x + m, y);
    SumPresentAppend(x, m);
    SumTotalAppend(x + m, y);
    SumTotalAppend(x, m);
  }

  lemma {:induction false} SumPresentAtMostTotal(cs: seq<Course>)
    requires forall i :: 0 <= i < |cs| ==> ValidCourse(cs[i])
    ensures SumPresent(cs) <= SumTotal(cs)
  {
    if cs != [] {
      SumPresentAtMostTotal(cs[1..]);
    }
  }

  /** For valid records the overall figure lies between 0 and 100. */
  lemma OverallPercentageBounded(courses: seq<Course>)
    requires forall i :: 0 <= i < |courses| ==> ValidCourse(courses[i])
    ensures 0.0 <= OverallPercentage(courses) <= 100.0
  {
    var v := Held(courses);
    FilterKeeps(courses, HasClasses, ValidCourse);
    SumPresentAtMostTotal(v);
    if |v| > 0 && SumTotal(v) > 0 {
      var p, t := SumPresent(v) as real, SumTotal(v) as real;
      assert p / t <= 1.0;
    }
  }

  /** Courses A (10 held, 5 present) and B (100 held, 90 present): the plain average of
      50% and 90% is 70%, the overall figure is 95/110 ≈ 86.4%. */
  lemma OverallWeightedExample(x: Course, y: Course)
    requires x.totalClasses == 10 && x.presentClasses == 5
    requires y.totalClasses == 100 && y.presentClasses == 90
    ensures (CoursePercent(x) + CoursePercent(y)) / 2.0 == 70.0
    ensures OverallPercentage([x, y]) == 9500.0 / 110.0
    ensures OverallPercentage([x, y]) != 70.0
  {
    assert [x, y][1..] == [y] && [y][1..] == [];
    assert Filter([y], HasClasses) == [y];
    assert Held([x, y]) == [x] + Filter([y], HasClasses);
    assert SumPresent([y]) == 90 + SumPresent([]);
    assert SumPresent([x, y]) == 5 + SumPresent([y]);
    assert SumTotal([y]) == 100 + SumTotal([]);
    assert SumTotal([x, y]) == 10 + SumTotal([y]);
  }

  // ---------------------------------------------------------------------------
  // bunkAllowance

  /** `bunkAllowance`: ⌊present·100/target − total⌋, at least 0, and 0 for a course with
      no classes. `/` on `int` with a positive divisor is the floor. */
  function BunkAllowance(c: Course, target: int): nat
    requires 1 <= target <= 100
  {
    if c.totalClasses == 0 then 0
    else
      var maxX := (c.presentClasses * 100 - target * c.totalClasses) / target;
      if maxX > 0 then maxX else 0
  }

  /** Staying at or above the target after `m` more absences, as a cross-multiplied
      inequality: present/(total+m) ≥ target/100. */
  predicate AtTargetAfterMisses(c: Course, target: int, m: nat) {
    100 * c.presentClasses >= target * (c.totalClasses + m)
  }

  lemma MulMonotone(d: int, x: int, y: int)
    requires d > 0 && x <= y
    ensures d * x <= d * y
  {
  }

  /** For a positive divisor, a ≥ d·m exactly when ⌊a/d⌋ ≥ m. */
  lemma {:induction false} FloorDivBound(a: int, d: int, m: int)
    requires d > 0
    ensures a >= d * m <==> a / d >= m
  {
    var q, r := a / d, a % d;
    assert a == d * q + r && 0 <= r < d;
    if q >= m {
      MulMonotone(d, m, q);
    } else {
      MulMonotone(d, q + 1, m);
      assert d * (q + 1) == d * q + d;
    }
  }

  /** The exact meaning of `bunkAllowance`: after `m` more absences the course is still at
      or above the target exactly when it is there now and `m` does not exceed the
      allowance. */
  lemma BunkAllowanceExact(c: Course, target: int, m: nat)
    requires 1 <= target <= 100 && c.totalClasses > 0
    ensures AtTargetAfterMisses(c, target, m)
            <==> AtTargetAfterMisses(c, target, 0) && m <= BunkAllowance(c, target)
  {
    var a := c.presentClasses * 100 - target * c.totalClasses;
    assert target * (c.totalClasses + m) == target * c.totalClasses + target * m;
    FloorDivBound(a, target, m);
    FloorDivBound(a, target, 0);
  }

  /** Being absent for exactly `bunkAllowance` more classes keeps a course that is at the
      target at the target. */
  lemma BunkAllowanceKeepsTarget(c: Course, target: int)
    requires 1 <= target <= 100 && c.totalClasses > 0
    requires AtTargetAfterMisses(c, target, 0)
    ensures AtTargetAfterMisses(c, target, BunkAllowance(c, target))
  {
    BunkAllowanceExact(c, target, BunkAllowance(c, target));
  }

  /** One absence more than `bunkAllowance` always drops the course below the target. */
  lemma BunkAllowanceOneMoreFails(c: Course, target: int)
    requires 1 <= target <= 100 && c.totalClasses > 0
    ensures !AtTargetAfterMisses(c, target, BunkAllowance(c, target) + 1)
  {
    BunkAllowanceExact(c, target, BunkAllowance(c, target) + 1);
  }

  // ---------------------------------------------------------------------------
  // classesToAttend

  /** ⌈a/d⌉ for a positive divisor. */
  function CeilDiv(a: int, d: int): int
    requires d > 0
  {
    -((-a) / d)
  }

  /** `classesToAttend`: with r = target/100, ⌈(r·total − present)/(1 − r)⌉ at least 0;
      0 for a course with no classes and for r ≥ 1. Multiplying numerator and denominator
      by 100 gives ⌈(target·total − 100·present)/(100 − target)⌉. */
  function ClassesToAttend(c: Course, target: int): nat
    requires 1 <= target <= 100
  {
    if c.totalClasses == 0 then 0
    else if target >= 100 then 0
    else
      var required := CeilDiv(target * c.totalClasses - 100 * c.presentClasses, 100 - target);
      if required > 0 then required else 0
  }

  /** Reaching the target after attending `k` more classes, all present:
      (present+k)/(total+k) ≥ target/100. */
  predicate AtTargetAfterAttending(c: Course, target: int, k: nat) {
    100 * (c.presentClasses + k) >= target * (c.totalClasses + k)
  }

  /** The exact meaning of `classesToAttend` for a target below 100: attending `k` more
      classes reaches the target exactly when `k` is at least `classesToAttend`. */
  lemma ClassesToAttendExact(c: Course, target: int, k: nat)
    requires 1 <= target < 100 && c.totalClasses > 0
    ensures AtTargetAfterAttending(c, target, k) <==> k >= ClassesToAttend(c, target)
  {
    var d := 100 - target;
    var b := target * c.totalClasses - 100 * c.presentClasses;
    assert AtTargetAfterAttending(c, target, k) <==> d * k >= b by {
      assert 100 * (c.presentClasses + k) - target * (c.totalClasses + k) == d * k - b;
    }
    // d·k ≥ b  ⟺  -b ≥ d·(-k)  ⟺  (-b)/d ≥ -k  ⟺  k ≥ ⌈b/d⌉
    var mk: int := -(k as int);
    assert d * k >= b <==> -b >= d * mk by {
      assert d * mk == -(d * k);
    }
    FloorDivBound(-b, d, mk);
  }

  /** Attending exactly `classesToAttend` more classes reaches the target. */
  lemma ClassesToAttendSuffices(c: Course, target: int)
    requires 1 <= target < 100 && c.totalClasses > 0
    ensures AtTargetAfterAttending(c, target, ClassesToAttend(c, target))
  {
    ClassesToAttendExact(c, target, ClassesToAttend(c, target));
  }

  /** Attending one class fewer than a positive `classesToAttend` does not. */
  lemma ClassesToAttendMinimal(c: Course, target: int)
    requires 1 <= target < 100 && c.totalClasses > 0
    requires ClassesToAttend(c, target) > 0
    ensures !AtTargetAfterAttending(c, target, ClassesToAttend(c, target) - 1)
  {
    ClassesToAttendExact(c, target, ClassesToAttend(c, target) - 1);
  }

  /** At a 100% target the page shows 0 even though, once a class has been missed, no
      number of attended classes ever reaches the target. */
  lemma ClassesToAttendFullTarget(c: Course, k: nat)
    requires c.totalClasses > 0 && c.presentClasses < c.totalClasses
    ensures ClassesToAttend(c, 100) == 0
    ensures !AtTargetAfterAttending(c, 100, k)
  {
  }

  // ---------------------------------------------------------------------------
  // projectedPercent and the safe/unsafe verdict

  /** `projectedPercent`: planned misses (negative ones count as 0) are added to the total
      only; 0 when the new total is 0. */
  function ProjectedPercent(c: Course, plannedBunks: int): real {
    var miss := if plannedBunks > 0 then plannedBunks else 0;
    var newTotal := c.totalClasses + miss;
    if newTotal == 0 then 0.0 else (c.presentClasses as real / newTotal as real) * 100.0
  }

  /** `projected >= projectionTarget`. */
  predicate IsSafe(c: Course, plannedBunks: int, target: int) {
    ProjectedPercent(c, plannedBunks) >= target as real
  }

  /** The projected percentage is the present count over the enlarged total. */
  lemma ProjectedPercentMeaning(c: Course, plannedBunks: int)
    ensures var n := c.totalClasses + (if plannedBunks > 0 then plannedBunks else 0);
            (n == 0 ==> ProjectedPercent(c, plannedBunks) == 0.0) &&
            (n > 0 ==> ProjectedPercent(c, plannedBunks) * (n as real)
                       == 100.0 * (c.presentClasses as real))
  {
    var n := c.totalClasses + (if plannedBunks > 0 then plannedBunks else 0);
    if n > 0 {
      var p := c.presentClasses as real;
      assert (p / n as real) * 100.0 * (n as real) == 100.0 * p;
    }
  }

  lemma {:induction false} DivAntitone(p: real, n1: real, n2: real)
    requires p >= 0.0 && 0.0 < n1 <= n2
    ensures p / n2 <= p / n1
  {
    assert p / n2 * n2 == p;
    assert p / n1 * n1 == p;
    assert p / n2 * n1 <= p / n2 * n2;
  }

  /** Planning more misses never raises the projection (for a valid record). */
  lemma ProjectedPercentNonIncreasing(c: Course, planned1: int, planned2: int)
    requires ValidCourse(c)
    requires planned1 <= planned2
    ensures ProjectedPercent(c, planned2) <= ProjectedPercent(c, planned1)
  {
    var m1 := if planned1 > 0 then planned1 else 0;
    var m2 := if planned2 > 0 then planned2 else 0;
    var n1, n2 := c.totalClasses + m1, c.totalClasses + m2;
    if n1 > 0 {
      DivAntitone(c.presentClasses as real, n1 as real, n2 as real);
    }
  }

  /** The verdict in exact terms: safe exactly when 100·present ≥ target·(total + misses)
      and the new total is not 0. */
  lemma IsSafeExact(c: Course, plannedBunks: int, target: int)
    requires 1 <= target <= 100
    ensures var m := if plannedBunks > 0 then plannedBunks else 0;
            IsSafe(c, plannedBunks, target)
            <==> c.totalClasses + m > 0 && AtTargetAfterMisses(c, target, m)
  {
    var m := if plannedBunks > 0 then plannedBunks else 0;
    var n := c.totalClasses + m;
    if n > 0 {
      var proj := ProjectedPercent(c, plannedBunks);
      ProjectedPercentMeaning(c, plannedBunks);
      CrossMultiplied(proj, c.presentClasses, n, target);
    } else {
      assert ProjectedPercent(c, plannedBunks) == 0.0;
    }
  }

  /** A figure with figure·n = 100·p reaches `target` exactly when 100·p ≥ target·n. */
  lemma CrossMultiplied(proj: real, p: int, n: int, target: int)
    requires n > 0 && proj * (n as real) == 100.0 * (p as real)
    ensures proj >= target as real <==> 100 * p >= target * n
  {
    ScaleCompare(proj, target as real, n as real);
    assert (target * n) as real == (target as real) * (n as real);
    assert (100 * p) as real == 100.0 * (p as real);
  }

  lemma ScaleCompare(x: real, y: real, n: real)
    requires n > 0.0
    ensures x >= y <==> x * n >= y * n
  {
    if x < y {
      assert (y - x) * n > 0.0;
    }
  }

  /** Safe exactly when the course is at the target now and the planned misses fit in the
      bunk allowance shown beside it. */
  lemma SafeIffWithinAllowance(c: Course, plannedBunks: int, target: int)
    requires 1 <= target <= 100 && c.totalClasses > 0
    ensures IsSafe(c, plannedBunks, target)
            <==> AtTargetAfterMisses(c, target, 0)
                 && (if plannedBunks > 0 then plannedBunks else 0) <= BunkAllowance(c, target)
  {
    IsSafeExact(c, plannedBunks, target);
    BunkAllowanceExact(c, target, if plannedBunks > 0 then plannedBunks else 0);
  }

  /** A course with 40 classes held and 28 attended. At 75% it needs 8 more
      classes and has no allowance; at 60% it may miss 6; planning 5 misses at 75% is
      unsafe. */
  lemma WorkedExample(c: Course)
    requires c.totalClasses == 40 && c.presentClasses == 28
    ensures ClassesToAttend(c, 75) == 8 && BunkAllowance(c, 75) == 0
    ensures BunkAllowance(c, 60) == 6
    ensures !IsSafe(c, 5, 75)
  {
    IsSafeExact(c, 5, 75);
  }
}
