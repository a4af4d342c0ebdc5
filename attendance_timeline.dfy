/** The two date sorts of the attendance page. Past entries are sorted latest first and
    upcoming entries earliest first, each list on its own; a missing or empty date compares
    as "1970-01-01". Both sorts are in place and stable, and they compare date strings by
    code-unit order. */
module AttendanceTimeline {
  import opened Wrappers
  import opened Strings
  import opened Seqs
  import opened AttendanceSchedule

  /** `a.date || "1970-01-01"` */
  function SortKey(e: DaywiseEntry): string {
    if e.date.Some? && e.date.value != "" then e.date.value else "1970-01-01"
  }

  /** `x` goes strictly before `y`: a later date when `descending`, an earlier one
      otherwise. Entries with equal keys are never out of order. */
  predicate Before(x: DaywiseEntry, y: DaywiseEntry, descending: bool) {
    if descending then LexLess(SortKey(y), SortKey(x)) else LexLess(SortKey(x), SortKey(y))
  }

  /** Not being less is transitive in the code-unit order. */
  lemma NotLessTransitive(a: string, b: string, c: string)
    requires !LexLess(a, b) && !LexLess(b, c)
    ensures !LexLess(a, c)
  {
    LexLessTotal(a, b);
    LexLessTotal(b, c);
    if LexLess(b, a) && LexLess(c, b) {
      LexLessTransitive(c, b, a);
      LexLessAsymmetric(c, a);
    }
  }

  /** Not going before is transitive. */
  lemma NotBeforeTransitive(x: DaywiseEntry, y: DaywiseEntry, z: DaywiseEntry, descending: bool)
    requires !Before(x, y, descending) && !Before(y, z, descending)
    ensures !Before(x, z, descending)
  {
    if descending {
      NotLessTransitive(SortKey(z), SortKey(y), SortKey(x));
    } else {
      NotLessTransitive(SortKey(x), SortKey(y), SortKey(z));
    }
  }

  lemma BeforeAsymmetric(x: DaywiseEntry, y: DaywiseEntry, descending: bool)
    requires Before(x, y, descending)
    ensures !Before(y, x, descending)
  {
    if descending {
      LexLessAsymmetric(SortKey(y), SortKey(x));
    } else {
      LexLessAsymmetric(SortKey(x), SortKey(y));
    }
  }

  lemma BeforeIrreflexive(x: DaywiseEntry, descending: bool)
    ensures !Before(x, x, descending)
  {
    LexLessIrreflexive(SortKey(x));
  }

  /** Inserting `x` into a list from its end: it passes every element it goes strictly
      before and stops behind the first it does not. */
  function Insert(s: seq<DaywiseEntry>, x: DaywiseEntry, descending: bool): seq<DaywiseEntry> {
    if s == [] then [x]
    else if Before(x, s[|s| - 1], descending) then Insert(s[..|s| - 1], x, descending) + [s[|s| - 1]]
    else s + [x]
  }

  /** The order `Array.prototype.sort` (stable) produces with the page's comparator. */
  function SortByDate(s: seq<DaywiseEntry>, descending: bool): seq<DaywiseEntry> {
    if s == [] then [] else Insert(SortByDate(s[..|s| - 1], descending), s[|s| - 1], descending)
  }

  predicate Sorted(s: seq<DaywiseEntry>, descending: bool) {
    forall i, j :: 0 <= i < j < |s| ==> !Before(s[j], s[i], descending)
  }

  lemma {:induction false} InsertMultiset(s: seq<DaywiseEntry>, x: DaywiseEntry, descending: bool)
    ensures multiset(Insert(s, x, descending)) == multiset(s) + multiset{x}
    decreases |s|
  {
    if s != [] && Before(x, s[|s| - 1], descending) {
      InsertMultiset(s[..|s| - 1], x, descending);
      assert s == s[..|s| - 1] + [s[|s| - 1]];
    }
  }

  lemma {:induction false} InsertSorted(s: seq<DaywiseEntry>, x: DaywiseEntry, descending: bool)
    requires Sorted(s, descending)
    ensures Sorted(Insert(s, x, descending), descending)
    decreases |s|
  {
    if s == [] {
    } else {
      var last := s[|s| - 1];
      var init := s[..|s| - 1];
      if Before(x, last, descending) {
        InsertSorted(init, x, descending);
        InsertMultiset(init, x, descending);
        SortedBeforeLast(init, last, x, Insert(init, x, descending), descending);
        assert s == init + [last];
      } else {
        SortedAppend(s, x, descending);
      }
    }
  }

  /** When `x` goes before the last entry, the last entry stays last behind the sorted
      insertion of `x` into the others. */
  lemma SortedBeforeLast(init: seq<DaywiseEntry>, last: DaywiseEntry, x: DaywiseEntry,
                         t: seq<DaywiseEntry>, descending: bool)
    requires Sorted(init + [last], descending) && Before(x, last, descending)
    requires Sorted(t, descending) && multiset(t) == multiset(init) + multiset{x}
    ensures Sorted(t + [last], descending)
  {
    var s := init + [last];
    var r := t + [last];
    BeforeAsymmetric(x, last, descending);
    forall i, j | 0 <= i < j < |r|
      ensures !Before(r[j], r[i], descending)
    {
      if j == |r| - 1 {
        assert r[i] in multiset(t);
        if r[i] != x {
          var k :| 0 <= k < |init| && init[k] == r[i];
          assert s[k] == r[i] && s[|s| - 1] == last;
        }
      } else {
        assert r[i] == t[i] && r[j] == t[j];
      }
    }
  }

  /** An entry that does not go before the last one may be appended. */
  lemma SortedAppend(s: seq<DaywiseEntry>, x: DaywiseEntry, descending: bool)
    requires Sorted(s, descending) && s != [] && !Before(x, s[|s| - 1], descending)
    ensures Sorted(s + [x], descending)
  {
    var r := s + [x];
    forall i, j | 0 <= i < j < |r|
      ensures !Before(r[j], r[i], descending)
    {
      if j == |r| - 1 {
        if i < |s| - 1 {
          assert !Before(s[|s| - 1], s[i], descending);
          NotBeforeTransitive(x, s[|s| - 1], s[i], descending);
        }
      } else {
        assert r[i] == s[i] && r[j] == s[j];
      }
    }
  }

  /** The sorted list is ordered by date in the requested direction. */
  lemma {:induction false} SortByDateSorted(s: seq<DaywiseEntry>, descending: bool)
    ensures Sorted(SortByDate(s, descending), descending)
    decreases |s|
  {
    if s != [] {
      SortByDateSorted(s[..|s| - 1], descending);
      InsertSorted(SortByDate(s[..|s| - 1], descending), s[|s| - 1], descending);
    }
  }

  /** The sorted list holds exactly the input's entries. */
  lemma {:induction false} SortByDatePermutation(s: seq<DaywiseEntry>, descending: bool)
    ensures multiset(SortByDate(s, descending)) == multiset(s)
    decreases |s|
  {
    if s != [] {
      SortByDatePermutation(s[..|s| - 1], descending);
      InsertMultiset(SortByDate(s[..|s| - 1], descending), s[|s| - 1], descending);
      assert s == s[..|s| - 1] + [s[|s| - 1]];
    }
  }

  /** Entries with one sort key, in list order. */
  function WithKey(s: seq<DaywiseEntry>, k: string): seq<DaywiseEntry> {
    Filter(s, HasKey(k))
  }

  function HasKey(k: string): DaywiseEntry -> bool {
    (e: DaywiseEntry) => SortKey(e) == k
  }

  lemma {:induction false} InsertStable(s: seq<DaywiseEntry>, x: DaywiseEntry, descending: bool, k: string)
    ensures WithKey(Insert(s, x, descending), k) == WithKey(s, k) + WithKey([x], k)
    decreases |s|
  {
    if s == [] {
      assert Insert(s, x, descending) == [x];
      assert WithKey(s, k) == [];
    } else {
      var last := s[|s| - 1];
      var init := s[..|s| - 1];
      assert s == init + [last];
      if Before(x, last, descending) {
        InsertStable(init, x, descending, k);
        PassStep(Insert(init, x, descending), init, last, x, descending, k);
        assert Insert(s, x, descending) == Insert(init, x, descending) + [last];
      } else {
        FilterAppend(s, [x], HasKey(k));
        assert Insert(s, x, descending) == s + [x];
      }
    }
  }

  /** Passing an entry with another key keeps both in their key filters' order. */
  lemma PassStep(t: seq<DaywiseEntry>, init: seq<DaywiseEntry>, last: DaywiseEntry,
                 x: DaywiseEntry, descending: bool, k: string)
    requires WithKey(t, k) == WithKey(init, k) + WithKey([x], k)
    requires Before(x, last, descending)
    ensures WithKey(t + [last], k) == WithKey(init + [last], k) + WithKey([x], k)
  {
    FilterAppend(t, [last], HasKey(k));
    FilterAppend(init, [last], HasKey(k));
    SwapKeys(x, last, descending, k);
    SwapTail(WithKey(init, k), WithKey([x], k), WithKey([last], k));
  }

  /** Two commuting pieces may trade places behind a common prefix. */
  lemma SwapTail<T>(a: seq<T>, b: seq<T>, c: seq<T>)
    requires b + c == c + b
    ensures (a + b) + c == (a + c) + b
  {
    assert (a + b) + c == a + (b + c);
    assert (a + c) + b == a + (c + b);
  }

  /** An entry and one it goes strictly before never share a key, so their one-element
      key filters commute. */
  lemma SwapKeys(x: DaywiseEntry, y: DaywiseEntry, descending: bool, k: string)
    requires Before(x, y, descending)
    ensures WithKey([x], k) + WithKey([y], k) == WithKey([y], k) + WithKey([x], k)
  {
    var p := HasKey(k);
    if SortKey(x) == SortKey(y) {
      LexLessIrreflexive(SortKey(x));
      assert false;
    }
    assert !(p(x) && p(y));
  }

  /** Stability: entries sharing a date keep their input order. */
  lemma {:induction false} SortByDateStable(s: seq<DaywiseEntry>, descending: bool, k: string)
    ensures WithKey(SortByDate(s, descending), k) == WithKey(s, k)
    decreases |s|
  {
    if s != [] {
      var init := s[..|s| - 1];
      SortByDateStable(init, descending, k);
      InsertStable(SortByDate(init, descending), s[|s| - 1], descending, k);
      assert s == init + [s[|s| - 1]];
      FilterAppend(init, [s[|s| - 1]], HasKey(k));
    }
  }

  lemma InsertPasses(s: seq<DaywiseEntry>, j: int, x: DaywiseEntry, descending: bool)
    requires 0 < j <= |s| && Before(x, s[j - 1], descending)
    ensures Insert(s[..j], x, descending) + s[j..] == Insert(s[..j - 1], x, descending) + s[j - 1..]
  {
    assert s[..j][..j - 1] == s[..j - 1];
    assert s[j - 1..] == [s[j - 1]] + s[j..];
  }

  lemma InsertStops(s: seq<DaywiseEntry>, j: int, x: DaywiseEntry, descending: bool)
    requires 0 <= j <= |s| && (j == 0 || !Before(x, s[j - 1], descending))
    ensures Insert(s[..j], x, descending) + s[j..] == s[..j] + [x] + s[j..]
  {
  }

  /** One step of the in-place insertion sort: `a[i]` is moved down past the entries of
      `a[..i]` it goes strictly before; everything from `i + 1` on stays. */
  method InsertStep(a: array<DaywiseEntry>, i: int, descending: bool)
    requires 0 <= i < a.Length
    modifies a
    ensures a[..i + 1] == Insert(old(a[..i]), old(a[i]), descending)
    ensures a[i + 1..] == old(a[i + 1..])
  {
    ghost var sorted := a[..i];
    ghost var rest := a[i + 1..];
    var x := a[i];
    var j := i;
    assert a[..] == sorted[..j] + [a[j]] + sorted[j..] + rest by {
      assert sorted[..j] == sorted && sorted[j..] == [];
      assert a[..] == a[..i] + [a[i]] + a[i + 1..];
    }
    while j > 0 && Before(x, a[j - 1], descending)
      invariant 0 <= j <= i
      invariant a[..] == sorted[..j] + [a[j]] + sorted[j..] + rest
      invariant Insert(sorted, x, descending) == Insert(sorted[..j], x, descending) + sorted[j..]
    {
      ShiftHole(a[..], sorted, rest, j, a[j]);
      InsertPasses(sorted, j, x, descending);
      a[j] := a[j - 1];
      j := j - 1;
    }
    FillHole(a[..], sorted, rest, j, a[j], x);
    a[j] := x;
    InsertStops(sorted, j, x, descending);
  }

  /** Moving the entry before the hole into it moves the hole one place down. */
  lemma ShiftHole(cur: seq<DaywiseEntry>, sorted: seq<DaywiseEntry>, rest: seq<DaywiseEntry>,
                  j: int, h: DaywiseEntry)
    requires 0 < j <= |sorted| && cur == sorted[..j] + [h] + sorted[j..] + rest
    ensures cur[j - 1] == sorted[j - 1]
    ensures cur[j := cur[j - 1]] == sorted[..j - 1] + [sorted[j - 1]] + sorted[j - 1..] + rest
  {
    var next := sorted[..j - 1] + [sorted[j - 1]] + sorted[j - 1..] + rest;
    assert |next| == |cur|;
    forall k | 0 <= k < |cur|
      ensures cur[j := cur[j - 1]][k] == next[k]
    {
      if k < j - 1 {
        assert cur[k] == sorted[k] && next[k] == sorted[k];
      } else if k <= j {
        assert next[k] == sorted[j - 1];
      } else if k <= |sorted| {
        assert cur[k] == sorted[k - 1] && next[k] == sorted[k - 1];
      } else {
        assert cur[k] == rest[k - |sorted| - 1] && next[k] == rest[k - |sorted| - 1];
      }
    }
  }

  /** Writing `x` into the hole completes the insertion; the tail stays. */
  lemma FillHole(cur: seq<DaywiseEntry>, sorted: seq<DaywiseEntry>, rest: seq<DaywiseEntry>,
                 j: int, h: DaywiseEntry, x: DaywiseEntry)
    requires 0 <= j <= |sorted| && cur == sorted[..j] + [h] + sorted[j..] + rest
    ensures cur[j := x][..|sorted| + 1] == sorted[..j] + [x] + sorted[j..]
    ensures cur[j := x][|sorted| + 1..] == rest
  {
    assert cur[j := x] == (sorted[..j] + [x] + sorted[j..]) + rest;
  }

  /** `entries.sort(...)` in place: past entries with `descending` (line 266), upcoming
      entries without it (line 363). */
  method SortEntries(a: array<DaywiseEntry>, descending: bool)
    modifies a
    ensures a[..] == SortByDate(old(a[..]), descending)
  {
    ghost var orig := a[..];
    var i := 0;
    while i < a.Length
      invariant 0 <= i <= a.Length
      invariant a[..i] == SortByDate(orig[..i], descending)
      invariant a[i..] == orig[i..]
    {
      assert a[i] == orig[i];
      assert a[i + 1..] == orig[i + 1..] by {
        assert a[i + 1..] == a[i..][1..] && orig[i + 1..] == orig[i..][1..];
      }
      InsertStep(a, i, descending);
      assert orig[..i + 1][..i] == orig[..i];
      i := i + 1;
    }
    assert orig[..a.Length] == orig;
  }
}
