/** The admin users page: the role filter and search box, the stat tiles, the display
    name, the activity badge and its "time ago" text, and which action buttons a row
    shows to the signed-in viewer — set against what the admin routes then allow. */
module AdminUsersPage {
  import opened Wrappers
  import opened Seqs
  import opened Strings
  import opened Store
  import opened AdminAuth
  import opened BanUser
  import opened UpdateUser
  import opened ChatFriends

  /** The four filter buttons: all, student, admin, tester. */
  datatype RoleFilter = AllRoles | StudentsOnly | AdminsOnly | TestersOnly

  predicate RolePasses(u: User, f: RoleFilter) {
    match f
    case AllRoles => true
    case StudentsOnly => u.role == Some(Student)
    case AdminsOnly => u.role == Some(Admin)
    case TestersOnly => u.role == Some(Tester)
  }

  /** `field?.toLowerCase().includes(query)` */
  predicate FieldMatches(field: Option<string>, query: string) {
    field.Some? && Contains(ToLower(field.value), query)
  }

  predicate SearchMatches(u: User, query: string) {
    var q := ToLower(query);
    FieldMatches(Some(u.studentId), q) || FieldMatches(Some(u.email), q) ||
    FieldMatches(u.name, q) || FieldMatches(u.firstName, q) || FieldMatches(u.lastName, q)
  }

  /** A row is listed when the role filter passes and, for a non-empty search, one of the
      five fields contains it, ignoring case. */
  predicate Listed(u: User, f: RoleFilter, query: string) {
    RolePasses(u, f) && (query == "" || SearchMatches(u, query))
  }

  function FilteredUsers(users: seq<User>, f: RoleFilter, query: string): seq<User> {
    Filter(users, (u: User) => Listed(u, f, query))
  }

  /** The list holds exactly the users passing the filter, in table order; with no filter
      and no search it is the whole table. */
  lemma FilteredUsersExact(users: seq<User>, f: RoleFilter, query: string)
    ensures forall i :: 0 <= i < |FilteredUsers(users, f, query)| ==>
              FilteredUsers(users, f, query)[i] in users && Listed(FilteredUsers(users, f, query)[i], f, query)
    ensures forall j :: 0 <= j < |users| && Listed(users[j], f, query) ==> users[j] in FilteredUsers(users, f, query)
    ensures f == AllRoles && query == "" ==> FilteredUsers(users, f, query) == users
  {
    var p := (u: User) => Listed(u, f, query);
    FilterMembers(users, p);
    if f == AllRoles && query == "" {
      FilterAll(users, p);
    }
  }

  /** The search ignores the case of what is typed. */
  lemma SearchIgnoresCase(u: User, f: RoleFilter, query: string)
    ensures Listed(u, f, ToUpper(query)) == Listed(u, f, query)
  {
    LowerOfUpper(query);
  }

  /** Users without a role and superadmins match no role button. */
  lemma HiddenByRoleButtons(u: User, f: RoleFilter, query: string)
    requires f != AllRoles
    requires u.role.None? || u.role == Some(SuperAdmin)
    ensures !Listed(u, f, query)
  {
  }

  predicate IsStudentTile(u: User) { u.role == Some(Student) || u.role.None? }
  predicate IsAdminTile(u: User) { u.role == Some(Admin) || u.role == Some(SuperAdmin) }
  predicate IsTester(u: User) { u.role == Some(Tester) }

  /** Lines 306-325: the Total, Students, Admins and Banned tiles. */
  function StudentTile(users: seq<User>): nat { Count(users, IsStudentTile) }
  function AdminTile(users: seq<User>): nat { Count(users, IsAdminTile) }
  function BannedTile(users: seq<User>): nat { Count(users, (u: User) => u.isBanned) }

  /** The Students and Admins tiles plus the testers account for every user once, and the
      Banned tile never exceeds the total. */
  lemma {:induction false} TilesPartition(users: seq<User>)
    ensures StudentTile(users) + AdminTile(users) + Count(users, IsTester) == |users|
    ensures BannedTile(users) <= |users|
  {
    if users != [] {
      TilesPartition(users[1..]);
      assert StudentTile(users) == (if IsStudentTile(users[0]) then 1 else 0) + StudentTile(users[1..]);
      assert AdminTile(users) == (if IsAdminTile(users[0]) then 1 else 0) + AdminTile(users[1..]);
      assert Count(users, IsTester) == (if IsTester(users[0]) then 1 else 0) + Count(users[1..], IsTester);
      match users[0].role {
        case None =>
        case Some(r) => assert r.Student? || r.Admin? || r.SuperAdmin? || r.Tester?;
      }
    }
  }

  predicate RoleLess(u: User) { u.role.None? }
  predicate IsSuperAdmin(u: User) { u.role == Some(SuperAdmin) }

  /** The Students tile counts role-less users the Student button hides, and the Admins
      tile counts superadmins the Admin button hides. */
  lemma TilesVersusButtons(users: seq<User>)
    ensures StudentTile(users) == |FilteredUsers(users, StudentsOnly, "")| + Count(users, RoleLess)
    ensures AdminTile(users) == |FilteredUsers(users, AdminsOnly, "")| + Count(users, IsSuperAdmin)
  {
    StudentTileVersusButton(users);
    AdminTileVersusButton(users);
  }

  lemma {:induction false} StudentTileVersusButton(users: seq<User>)
    ensures StudentTile(users) == |FilteredUsers(users, StudentsOnly, "")| + Count(users, RoleLess)
  {
    if users != [] {
      StudentTileVersusButton(users[1..]);
      assert FilteredUsers(users, StudentsOnly, "") ==
        (if Listed(users[0], StudentsOnly, "") then [users[0]] else []) + FilteredUsers(users[1..], StudentsOnly, "");
    }
  }

  lemma {:induction false} AdminTileVersusButton(users: seq<User>)
    ensures AdminTile(users) == |FilteredUsers(users, AdminsOnly, "")| + Count(users, IsSuperAdmin)
  {
    if users != [] {
      AdminTileVersusButton(users[1..]);
      assert FilteredUsers(users, AdminsOnly, "") ==
        (if Listed(users[0], AdminsOnly, "") then [users[0]] else []) + FilteredUsers(users[1..], AdminsOnly, "");
    }
  }

  /** `user.name || \`${firstName || ""} ${lastName || ""}\`.trim() || "No name"` */
  function DisplayName(u: User): (r: string)
    ensures r != ""
    ensures u.name.Some? && u.name.value != "" ==> r == u.name.value
  {
    if u.name.Some? && u.name.value != "" then u.name.value
    else
      var full := Trim(u.firstName.GetOr("") + " " + u.lastName.GetOr(""));
      if full != "" then full else "No name"
  }

  /** Without a name, the first and last name are joined by one space; with none of the
      three the row reads "No name". */
  lemma DisplayNameFallbacks(u: User)
    requires u.name.None? || u.name.value == ""
    ensures u.firstName.None? && u.lastName.None? ==> DisplayName(u) == "No name"
    ensures u.firstName.Some? && u.lastName.Some? && u.firstName.value != "" && u.lastName.value != "" &&
            !IsWhite(u.firstName.value[0]) && !IsWhite(u.lastName.value[|u.lastName.value| - 1]) ==>
              DisplayName(u) == u.firstName.value + " " + u.lastName.value
  {
    if u.firstName.None? && u.lastName.None? {
      assert "" + " " + "" == " ";
      TrimEmptyIffAllWhite(" ");
    }
    if u.firstName.Some? && u.lastName.Some? && u.firstName.value != "" && u.lastName.value != "" &&
       !IsWhite(u.firstName.value[0]) && !IsWhite(u.lastName.value[|u.lastName.value| - 1]) {
      var s := u.firstName.value + " " + u.lastName.value;
      assert s[0] == u.firstName.value[0];
      assert s[|s| - 1] == u.lastName.value[|u.lastName.value| - 1];
      TrimUnchanged(s);
    }
  }

  /** `lastActive && now - lastActive < 5 min` */
  predicate IsActive(lastActiveAt: Option<Millis>, now: Millis) {
    lastActiveAt.Some? && now - lastActiveAt.value < 5 * 60 * 1000
  }

  /** The page's Active badge and the friends route's online flag agree. */
  lemma ActiveIsOnline(lastActiveAt: Option<Millis>, now: Millis)
    ensures IsActive(lastActiveAt, now) <==> IsUserOnline(lastActiveAt, now)
  {
  }

  /** The badge: Banned wins over the activity state. */
  function StatusBadge(u: User, now: Millis): (r: string)
    ensures r == "Banned" <==> u.isBanned
    ensures r == "Active" <==> !u.isBanned && IsUserOnline(u.lastActiveAt, now)
  {
    ActiveIsOnline(u.lastActiveAt, now);
    if u.isBanned then "Banned" else if IsActive(u.lastActiveAt, now) then "Active" else "Offline"
  }

  type Positive = n: nat | n > 0 witness 1

  /** The "time ago" units, largest first: seconds per unit and the text after the count. */
  const Units: seq<(Positive, string)> :=
    [(31536000, "y ago"), (2592000, "mo ago"), (86400, "d ago"), (3600, "h ago"), (60, "m ago")]

  /** The first unit the elapsed seconds strictly exceed gives the whole number of those
      units; below every unit, "Just now". */
  function AgoText(seconds: int, units: seq<(Positive, string)>): string
  {
    if units == [] then "Just now"
    else if seconds > units[0].0 then NatToString(seconds / units[0].0) + units[0].1
    else AgoText(seconds, units[1..])
  }

  /** `Math.floor((now - date) / 1000)` */
  function ElapsedSeconds(now: Millis, date: Millis): int {
    (now - date) / 1000
  }

  /** Real division by a positive whole number: above 1 exactly when the dividend is above
      the divisor, and its floor is the integer quotient. */
  lemma RealQuotient(s: int, d: int, x: real)
    requires d > 0 && x == s as real / d as real
    ensures x > 1.0 <==> s > d
    ensures x.Floor == s / d
  {
    var dr := d as real;
    var q, r := s / d, s % d;
    assert x * dr == s as real;
    CastMul(q, d);
    assert s as real == (q as real) * dr + r as real;
    QuotientSplit(s as real, q as real, r as real, dr, x);
    ScaleCompare(1.0, x, dr);
  }

  lemma CastMul(a: int, b: int)
    ensures (a * b) as real == (a as real) * (b as real)
  {
  }

  /** x·d = q·d + r with 0 ≤ r < d puts x in [q, q + 1). */
  lemma QuotientSplit(s: real, q: real, r: real, d: real, x: real)
    requires d > 0.0 && x * d == s && s == q * d + r && 0.0 <= r < d
    ensures q <= x < q + 1.0
  {
    var f := x - q;
    assert f * d == x * d - q * d;
    ScaleCompare(f, 0.0, d);
    ScaleCompare(f, 1.0, d);
  }

  /** Multiplying by a positive number is order-preserving and can be cancelled. */
  lemma ScaleCompare(x: real, y: real, n: real)
    requires n > 0.0
    ensures x < y <==> x * n < y * n
  {
    if x < y {
      assert (y - x) * n > 0.0;
    } else {
      assert (x - y) * n >= 0.0;
    }
  }

  lemma RealCancel(x: real, y: real, n: real)
    requires n > 0.0 && x * n == y * n
    ensures x == y
  {
    ScaleCompare(x, y, n);
    ScaleCompare(y, x, n);
  }

  /** The table spelled out: which unit wins for a given number of seconds. */
  lemma AgoTextUnits(seconds: int)
    ensures AgoText(seconds, Units) ==
      if seconds > 31536000 then NatToString(seconds / 31536000) + "y ago"
      else if seconds > 2592000 then NatToString(seconds / 2592000) + "mo ago"
      else if seconds > 86400 then NatToString(seconds / 86400) + "d ago"
      else if seconds > 3600 then NatToString(seconds / 3600) + "h ago"
      else if seconds > 60 then NatToString(seconds / 60) + "m ago"
      else "Just now"
  {
    var u1: seq<(Positive, string)> := [(2592000, "mo ago"), (86400, "d ago"), (3600, "h ago"), (60, "m ago")];
    var u2: seq<(Positive, string)> := [(86400, "d ago"), (3600, "h ago"), (60, "m ago")];
    var u3: seq<(Positive, string)> := [(3600, "h ago"), (60, "m ago")];
    var u4: seq<(Positive, string)> := [(60, "m ago")];
    assert Units == [(31536000, "y ago")] + u1 && u1 == [(2592000, "mo ago")] + u2;
    assert u2 == [(86400, "d ago")] + u3 && u3 == [(3600, "h ago")] + u4 && u4 == [(60, "m ago")] + [];
    AgoTextStep(seconds, 31536000, "y ago", u1);
    AgoTextStep(seconds, 2592000, "mo ago", u2);
    AgoTextStep(seconds, 86400, "d ago", u3);
    AgoTextStep(seconds, 3600, "h ago", u4);
    AgoTextStep(seconds, 60, "m ago", []);
  }

  /** One row of the table: it wins when the seconds exceed it, else the rest decides. */
  lemma AgoTextStep(seconds: int, unitSeconds: Positive, text: string, rest: seq<(Positive, string)>)
    ensures AgoText(seconds, [(unitSeconds, text)] + rest) ==
              if seconds > unitSeconds then NatToString(seconds / unitSeconds) + text
              else AgoText(seconds, rest)
  {
    var units := [(unitSeconds, text)] + rest;
    assert units[0] == (unitSeconds, text) && units[1..] == rest;
  }

  /** One `interval = seconds / unit; if (interval > 1) return Math.floor(interval) + ...`
      step of `timeAgo`, in real division. */
  method UnitStep(seconds: int, unitSeconds: int, suffix: string) returns (hit: bool, text: string)
    requires unitSeconds > 0
    ensures hit <==> seconds > unitSeconds
    ensures hit ==> text == NatToString(seconds / unitSeconds) + suffix
  {
    var interval: real := seconds as real / unitSeconds as real;
    RealQuotient(seconds, unitSeconds, interval);
    hit := interval > 1.0;
    text := if hit then NatToString(interval.Floor) + suffix else "";
  }

  /** The `timeAgo` helper of lines 403-416. */
  method TimeAgo(now: Millis, date: Millis) returns (text: string)
    ensures text == AgoText(ElapsedSeconds(now, date), Units)
  {
    var seconds := (now - date) / 1000;
    AgoTextUnits(seconds);
    var hit;
    hit, text := UnitStep(seconds, 31536000, "y ago");
    if hit {
      return;
    }
    hit, text := UnitStep(seconds, 2592000, "mo ago");
    if hit {
      return;
    }
    hit, text := UnitStep(seconds, 86400, "d ago");
    if hit {
      return;
    }
    hit, text := UnitStep(seconds, 3600, "h ago");
    if hit {
      return;
    }
    hit, text := UnitStep(seconds, 60, "m ago");
    if hit {
      return;
    }
    return "Just now";
  }

  /** A count text starts with a digit, so it is never "Just now". */
  lemma AgoSuffix(n: nat, text: string)
    ensures NatToString(n) + text != "Just now"
  {
    var s := NatToString(n) + text;
    assert '0' <= s[0] <= '9';
  }

  /** "Just now" appears exactly for at most a minute (a date in the future included). */
  lemma {:induction false} JustNowExact(seconds: int, units: seq<(Positive, string)>)
    requires units != [] && units[|units| - 1].0 == 60
    requires forall k :: 0 <= k < |units| ==> units[k].0 >= 60
    ensures AgoText(seconds, units) == "Just now" <==> seconds <= 60
  {
    if seconds > units[0].0 {
      AgoSuffix(seconds / units[0].0, units[0].1);
    } else if |units| > 1 {
      JustNowExact(seconds, units[1..]);
    }
  }

  /** The Edit button (line 448): a superadmin, or an admin on a student, a tester or
      their own row. */
  predicate CanEdit(viewer: Option<User>, target: User) {
    viewer.Some? &&
    (viewer.value.role == Some(SuperAdmin) ||
     (viewer.value.role == Some(Admin) &&
      (target.role == Some(Student) || target.role == Some(Tester) || target.id == viewer.value.id)))
  }

  /** The Ban button (line 462): never on the viewer's own row; a superadmin on anyone
      else, an admin on students and testers. */
  predicate CanBan(viewer: Option<User>, target: User) {
    (viewer.None? || target.id != viewer.value.id) &&
    viewer.Some? &&
    (viewer.value.role == Some(SuperAdmin) ||
     (viewer.value.role == Some(Admin) && (target.role == Some(Student) || target.role == Some(Tester))))
  }

  /** The Delete button (line 477): superadmins only, never on admins or superadmins. */
  predicate CanDelete(viewer: Option<User>, target: User) {
    viewer.Some? && viewer.value.role == Some(SuperAdmin) &&
    target.role != Some(Admin) && target.role != Some(SuperAdmin)
  }

  /** The Edit button is shown exactly when the update route lets that viewer through. */
  lemma EditButtonMatchesRoute(viewer: User, target: User)
    ensures CanEdit(Some(viewer), target) <==> IsStaff(viewer.role) && AdminMayEdit(viewer, target)
  {
  }

  /** Whatever the ban route accepts has its button on the page (a viewer's own row is
      never accepted by the route either). */
  lemma BanRouteShowsButton(viewer: User, target: User)
    requires IsStaff(viewer.role)
    requires viewer.id == target.id ==> viewer == target
    requires BanRefusal(viewer, target).None?
    ensures CanBan(Some(viewer), target)
  {
  }

  /** The page offers Ban where the route refuses: an admin on a tester is told 403, a
      superadmin on another superadmin 400. */
  lemma BanButtonOverPromises(viewer: User, target: User)
    requires viewer.id != target.id
    ensures viewer.role == Some(Admin) && target.role == Some(Tester) ==>
              CanBan(Some(viewer), target) &&
              BanRefusal(viewer, target) == Some(Response(403, "Admin cannot ban other admin or superadmin"))
    ensures viewer.role == Some(SuperAdmin) && target.role == Some(SuperAdmin) ==>
              CanBan(Some(viewer), target) &&
              BanRefusal(viewer, target) == Some(Response(400, "Cannot ban/unban superadmin"))
  {
  }

  /** Delete is only ever offered to a superadmin, on a non-staff row other than their own,
      and there Ban is offered too. */
  lemma DeleteImpliesBan(viewer: Option<User>, target: User)
    requires viewer.Some? && (viewer.value.id == target.id ==> viewer.value == target)
    requires CanDelete(viewer, target)
    ensures !IsStaff(target.role) && target.id != viewer.value.id
    ensures CanBan(viewer, target)
  {
  }
}
