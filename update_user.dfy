/** The admin update route up to its username change: the session check, the rule for who
    may edit whom, and the uniqueness test for a new username. */
module UpdateUser {
  import opened Wrappers
  import opened Strings
  import opened Seqs
  import opened Store
  import opened AdminAuth

  const Forbidden: string := "Only admin/superadmin can update users"

  /** Lines 79-86: an admin may edit students, testers and their own record; a superadmin
      may edit anyone. */
  predicate AdminMayEdit(actor: User, target: User) {
    !(actor.role == Some(Admin) && target.role != Some(Student) && target.role != Some(Tester)
      && actor.id != target.id)
  }

  /** Usernames, where set, belong to one user each. */
  ghost predicate UniqueUsernames(users: seq<User>) {
    forall i, j :: 0 <= i < j < |users| && users[i].username.Some? ==>
      users[i].username != users[j].username
  }

  /** `User.findOne({ username })` */
  function FindByUsername(users: seq<User>, name: string): (r: Option<nat>)
    ensures r.Some? ==> r.value < |users| && users[r.value].username == Some(name)
    ensures r.None? <==> forall j :: 0 <= j < |users| ==> users[j].username != Some(name)
  {
    FirstIndex(users, (u: User) => u.username == Some(name))
  }

  /** Lines 104-110: a non-empty username different from the current one is taken over
      only if no user holds it; `None` means "Username already taken". The schema declares
      `username` with `trim: true` (src/models/User.ts:83-90), so Mongoose trims both the
      `findOne` filter and the assigned value, while the `!==` test sees the raw input. */
  function Rename(users: seq<User>, target: User, newName: string): Option<User> {
    if newName != "" && Some(newName) != target.username then
      if FindByUsername(users, Trim(newName)).Some? then None
      else Some(target.(username := Some(Trim(newName))))
    else Some(target)
  }

  /** Renaming changes at most the username, and replacing the target's record by the
      renamed one keeps usernames unique. */
  lemma RenameKeepsUnique(users: seq<User>, i: nat, newName: string)
    requires i < |users| && UniqueUsernames(users)
    requires Rename(users, users[i], newName).Some?
    ensures Rename(users, users[i], newName).value.(username := users[i].username) == users[i]
    ensures UniqueUsernames(users[i := Rename(users, users[i], newName).value])
  {
    var u := Rename(users, users[i], newName).value;
    if u.username != users[i].username {
      assert FindByUsername(users, Trim(newName)).None?;
    }
    ReplaceKeepsUnique(users, i, u);
  }

  /** A record whose username is its old one, or one nobody holds, may replace it. */
  lemma ReplaceKeepsUnique(users: seq<User>, i: nat, u: User)
    requires i < |users| && UniqueUsernames(users)
    requires u.username == users[i].username
             || forall j :: 0 <= j < |users| ==> users[j].username != u.username
    ensures UniqueUsernames(users[i := u])
  {
    var after := users[i := u];
    forall a, b | 0 <= a < b < |after| && after[a].username.Some?
      ensures after[a].username != after[b].username
    {
      if a == i {
        assert after[b] == users[b];
      } else if b == i {
        assert after[a] == users[a];
      } else {
        assert after[a] == users[a] && after[b] == users[b];
      }
    }
  }

  /** A name whose trimmed form someone already holds is refused, and otherwise the trimmed
      name is taken. */
  lemma RenameExact(users: seq<User>, target: User, newName: string)
    requires newName != "" && Some(newName) != target.username
    ensures Rename(users, target, newName).None? <==>
              exists j :: 0 <= j < |users| && users[j].username == Some(Trim(newName))
    ensures Rename(users, target, newName).Some? ==>
              Rename(users, target, newName).value.username == Some(Trim(newName))
  {
    if Rename(users, target, newName).None? {
      var j := FindByUsername(users, Trim(newName)).value;
      assert users[j].username == Some(Trim(newName));
    }
  }

  /** Typing one's own username with a leading space passes the `!==` test, and the trimmed
      lookup then finds the user's own record: the route answers "Username already taken". */
  lemma RenamePaddedOwnName(users: seq<User>, i: nat, name: string)
    requires i < |users| && users[i].username == Some(name)
    requires name != [] && !IsWhite(name[0]) && !IsWhite(name[|name| - 1])
    ensures Rename(users, users[i], " " + name).None?
  {
    var padded := " " + name;
    assert padded[1..] == name;
    assert TrimStart(padded) == TrimStart(name);
    TrimUnchanged(name);
    assert Trim(padded) == name;
    assert Some(padded) != users[i].username by {
      assert |padded| != |name|;
    }
  }

  /** Where the route stops, or the record as it stands after line 110. */
  datatype UpdateOutcome = Stopped(response: Response) | Proceeds(targetIndex: nat, user: User)

  /** `POST /api/admin/update-user` through line 110. Nothing is saved in these lines, so the
      tables do not change; the outcome carries the edited record. */
  method Post(db: Database, header: Option<string>, decode: string -> Option<string>,
              verify: string -> Option<TokenPayload>, userId: Id, newUsername: string)
    returns (outcome: UpdateOutcome)
    ensures outcome.Proceeds? ==> outcome.targetIndex < |db.users|
    ensures UpdateEffect(db.users, outcome, TokenFromCookie(header, decode), verify, userId, newUsername)
  {
    var lookup := GetTokenFromRequest(header, decode);
    outcome := Handle(db.users, lookup, verify, userId, newUsername);
  }

  /** The response of each refusal, in the route's order, and the edited record otherwise. */
  ghost predicate UpdateEffect(users: seq<User>, outcome: UpdateOutcome, lookup: TokenLookup,
                               verify: string -> Option<TokenPayload>, userId: Id, newUsername: string)
  {
    var auth := AuthenticateAdmin(users, lookup, verify, Forbidden);
    var t := FindUser(users, userId);
    if auth.Refused? then outcome == Stopped(auth.response)
    else if userId == "" then outcome == Stopped(Response(400, "userId is required"))
    else if t.None? then outcome == Stopped(Response(404, "User not found"))
    else if !AdminMayEdit(users[auth.index], users[t.value]) then
      outcome == Stopped(Response(403, "Admin cannot edit role of other admin or superadmin"))
    else if Rename(users, users[t.value], newUsername).None? then
      outcome == Stopped(Response(400, "Username already taken"))
    else
      outcome == Proceeds(t.value, Rename(users, users[t.value], newUsername).value)
  }

  /** The route after `getTokenFromRequest`. */
  method Handle(users: seq<User>, lookup: TokenLookup, verify: string -> Option<TokenPayload>,
                userId: Id, newUsername: string)
    returns (outcome: UpdateOutcome)
    ensures outcome.Proceeds? ==> outcome.targetIndex < |users|
    ensures UpdateEffect(users, outcome, lookup, verify, userId, newUsername)
  {
    var auth := AuthenticateAdmin(users, lookup, verify, Forbidden);
    if auth.Refused? {
      return Stopped(auth.response);
    }
    var adminUser := users[auth.index];
    if userId == "" {
      return Stopped(Response(400, "userId is required"));
    }
    var found := FindUser(users, userId);
    if found.None? {
      return Stopped(Response(404, "User not found"));
    }
    var targetUser := users[found.value];
    var isSelf := adminUser.id == targetUser.id;
    if adminUser.role == Some(Admin) && targetUser.role != Some(Student)
       && targetUser.role != Some(Tester) && !isSelf {
      return Stopped(Response(403, "Admin cannot edit role of other admin or superadmin"));
    }
    assert AdminMayEdit(adminUser, targetUser);
    ghost var renamed := Rename(users, targetUser, newUsername);
    if newUsername != "" && Some(newUsername) != targetUser.username {
      var existing := FindByUsername(users, Trim(newUsername));
      if existing.Some? {
        assert renamed.None?;
        return Stopped(Response(400, "Username already taken"));
      }
      targetUser := targetUser.(username := Some(Trim(newUsername)));
    }
    assert renamed == Some(targetUser);
    return Proceeds(found.value, targetUser);
  }
}
