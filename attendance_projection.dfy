/** The projection view of the attendance page: a table of planned additional misses per
    course key, reset to 0 for every course when the view opens and changed one key at a
    time by the "−" and "+" buttons, and the per-course row the view shows. */
module AttendanceProjection {
  import opened AttendanceMetrics

  /** The keys of a course list. */
  function KeysOf(courses: seq<Course>): set<string> {
    set i | 0 <= i < |courses| :: CourseKey(courses[i])
  }

  /** `handleOpenProjection`'s `forEach`: a record with every course's key set to 0. */
  method InitialInputs(courses: seq<Course>) returns (initial: map<string, int>)
    ensures initial.Keys == KeysOf(courses)
    ensures forall k :: k in initial ==> initial[k] == 0
  {
    initial := map[];
    var i := 0;
    while i < |courses|
      invariant 0 <= i <= |courses|
      invariant initial.Keys == KeysOf(courses[..i])
      invariant forall k :: k in initial ==> initial[k] == 0
    {
      assert courses[..i + 1] == courses[..i] + [courses[i]];
      assert KeysOf(courses[..i + 1]) == KeysOf(courses[..i]) + {CourseKey(courses[i])} by {
        forall k | k in KeysOf(courses[..i + 1])
          ensures k in KeysOf(courses[..i]) + {CourseKey(courses[i])}
        {
          var j :| 0 <= j < i + 1 && CourseKey(courses[..i + 1][j]) == k;
          if j < i {
            assert courses[..i + 1][j] == courses[..i][j];
          }
        }
        assert courses[..i + 1][i] == courses[i];
        forall k | k in KeysOf(courses[..i])
          ensures k in KeysOf(courses[..i + 1])
        {
          var j :| 0 <= j < i && CourseKey(courses[..i][j]) == k;
          assert courses[..i + 1][j] == courses[..i][j];
        }
      }
      initial := initial[CourseKey(courses[i]) := 0];
      i := i + 1;
    }
    assert courses[..i] == courses;
  }

  /** `projectionInputs[key] || 0`: a missing key reads as 0. */
  function Planned(inputs: map<string, int>, key: string): int {
    if key in inputs then inputs[key] else 0
  }

  /** What the view shows for one course. */
  datatype ProjectionResult = ProjectionResult(
    planned: int,
    projected: real,
    maxBunk: nat,
    isSafe: bool)

  /** The projection view's state: whether it is open, the target slider and the table. */
  class ProjectionView {
    var isOpen: bool
    var target: int
    var inputs: map<string, int>

    /** The slider keeps the target in 1..100; planned misses are never negative. */
    ghost predicate Valid()
      reads this
    {
      1 <= target <= 100 && forall k :: k in inputs ==> inputs[k] >= 0
    }

    /** Initial state: closed, target 75, empty table. */
    constructor ()
      ensures Valid()
      ensures !isOpen && target == 75 && inputs == map[]
    {
      isOpen := false;
      target := 75;
      inputs := map[];
    }

    /** `handleOpenProjection`: every course key planned at 0, then the view opens. */
    method Open(courses: seq<Course>)
      requires Valid()
      modifies this
      ensures Valid()
      ensures isOpen && target == old(target)
      ensures inputs.Keys == KeysOf(courses)
      ensures forall k :: k in inputs ==> inputs[k] == 0
    {
      var initial := InitialInputs(courses);
      inputs := initial;
      isOpen := true;
    }

    method Close()
      modifies this
      ensures !isOpen && target == old(target) && inputs == old(inputs)
    {
      isOpen := false;
    }

    /** The range input, whose `min` is 1 and `max` is 100. */
    method SetTarget(t: int)
      requires Valid()
      requires 1 <= t <= 100
      modifies this
      ensures Valid()
      ensures target == t && isOpen == old(isOpen) && inputs == old(inputs)
    {
      target := t;
    }

    /** The "−" button: this key's planned misses become max(0, planned − 1); every other
        key keeps its value. */
    method Decrement(key: string)
      requires Valid()
      modifies this
      ensures Valid()
      ensures inputs == old(inputs)[key := if Planned(old(inputs), key) - 1 > 0
                                           then Planned(old(inputs), key) - 1 else 0]
      ensures target == old(target) && isOpen == old(isOpen)
    {
      var planned := Planned(inputs, key);
      inputs := inputs[key := if 0 > planned - 1 then 0 else planned - 1];
    }

    /** The "+" button: this key's planned misses become planned + 1; every other key
        keeps its value. */
    method Increment(key: string)
      requires Valid()
      modifies this
      ensures Valid()
      ensures inputs == old(inputs)[key := Planned(old(inputs), key) + 1]
      ensures target == old(target) && isOpen == old(isOpen)
    {
      var planned := Planned(inputs, key);
      inputs := inputs[key := planned + 1];
    }

    /** The row shown for course `c`: its planned misses, projected percentage, bunk
        allowance and verdict. The verdict is "safe" exactly when the course is at the
        target now and the planned misses fit within the allowance shown beside it. */
    function Row(c: Course): (r: ProjectionResult)
      reads this
      requires Valid()
      ensures r.planned == Planned(inputs, CourseKey(c)) && r.planned >= 0
      ensures r.maxBunk == BunkAllowance(c, target)
      ensures c.totalClasses > 0 ==>
                (r.isSafe <==> AtTargetAfterMisses(c, target, 0) && r.planned <= r.maxBunk)
    {
      var planned := Planned(inputs, CourseKey(c));
      if c.totalClasses > 0 then
        SafeIffWithinAllowance(c, planned, target);
        ProjectionResult(planned, ProjectedPercent(c, planned), BunkAllowance(c, target),
                         IsSafe(c, planned, target))
      else
        ProjectionResult(planned, ProjectedPercent(c, planned), BunkAllowance(c, target),
                       IsSafe(c, planned, target))
    }
  }

  /** "+" then "−" on the same key gives that key back the value it had (reading a missing
      key as 0). */
  lemma IncrementThenDecrement(inputs: map<string, int>, key: string)
    requires Planned(inputs, key) >= 0
    ensures var up := inputs[key := Planned(inputs, key) + 1];
            var p := Planned(up, key) - 1;
            Planned(up[key := if p > 0 then p else 0], key) == Planned(inputs, key)
  {
  }
}
