/** The login route: credential lookup, the ban check with automatic lifting of an expired
    ban, and the `lastActiveAt` stamp before the session token is issued. */
module Login {
  import opened Wrappers
  import opened Seqs
  import opened Store
  import opened BanUser

  /** The route's answers. A successful login carries the payload the session token is
      created from. */
  datatype LoginResponse =
    | Failed(status: nat, msg: string)
    | Banned(reason: Option<string>, bannedUntil: Option<Millis>)
    | LoggedIn(payload: TokenPayload)

  /** Lines 31-34: by `studentId` when one is given, otherwise by `email`. */
  function LookupForLogin(users: seq<User>, studentId: string, email: string): (r: Option<nat>)
    ensures r.Some? ==> r.value < |users|
    ensures r.Some? && studentId != "" ==> users[r.value].studentId == studentId
    ensures r.Some? && studentId == "" ==> users[r.value].email == email
    ensures r.None? <==> forall j :: 0 <= j < |users| ==>
              if studentId != "" then users[j].studentId != studentId else users[j].email != email
  {
    if studentId != "" then FirstIndex(users, (u: User) => u.studentId == studentId)
    else FirstIndex(users, (u: User) => u.email == email)
  }

  /** Lines 47-52: an expiry that is set, non-zero (a zero time is falsy) and not in the
      future. */
  predicate BanExpired(u: User, now: Millis) {
    u.bannedUntil.Some? && u.bannedUntil.value != 0 && u.bannedUntil.value <= now
  }

  /** A banned user whose ban has not expired: no expiry (permanent) or a future one. */
  predicate StillBanned(u: User, now: Millis) {
    u.isBanned && !BanExpired(u, now)
  }

  /** The record after a login that gets past the ban check: an expired ban is cleared and
      the activity stamp is set to `now`. */
  function AfterLogin(u: User, now: Millis): (r: User)
    requires !StillBanned(u, now)
    ensures !r.isBanned && r.lastActiveAt == Some(now) && r.id == u.id
    ensures u.isBanned ==> r.bannedReason == None && r.bannedUntil == None
    ensures !u.isBanned ==> r == u.(lastActiveAt := Some(now))
  {
    var v := if u.isBanned then u.(isBanned := false, bannedReason := None, bannedUntil := None) else u;
    v.(lastActiveAt := Some(now))
  }

  /** The response to a banned user: `bannedReason || null` and `bannedUntil || null`. */
  function BannedResponse(u: User): LoginResponse {
    Banned(if u.bannedReason.Some? && u.bannedReason.value != "" then u.bannedReason else None,
           u.bannedUntil)
  }

  ghost predicate LoginEffect(users0: seq<User>, users: seq<User>, r: LoginResponse,
                              studentId: string, email: string, password: string,
                              compare: (string, string) -> bool, now: Millis)
  {
    var found := LookupForLogin(users0, studentId, email);
    if (studentId == "" && email == "") || password == "" then
      r == Failed(400, "CyberVidya ID or email and password are required") && users == users0
    else if found.None? || !compare(password, users0[found.value].passwordHash) then
      r == Failed(401, "Invalid credentials") && users == users0
    else if StillBanned(users0[found.value], now) then
      r == BannedResponse(users0[found.value]) && users == users0
    else
      var u := AfterLogin(users0[found.value], now);
      r == LoggedIn(TokenPayload(u.id, u.studentId)) && users == users0[found.value := u]
  }

  /** `POST /api/auth/login`; `compare` stands for `bcrypt.compare`. Fields missing from the
      body are "". Only the user table changes, and only on a successful login. */
  method Post(db: Database, studentId: string, email: string, password: string,
              compare: (string, string) -> bool, now: Millis)
    returns (r: LoginResponse)
    requires db.Valid()
    modifies db
    ensures db.Valid()
    ensures db.messages == old(db.messages) && db.follows == old(db.follows)
    ensures db.resetTokens == old(db.resetTokens) && db.adminLog == old(db.adminLog)
    ensures LoginEffect(old(db.users), db.users, r, studentId, email, password, compare, now)
  {
    if (studentId == "" && email == "") || password == "" {
      return Failed(400, "CyberVidya ID or email and password are required");
    }
    var found := LookupForLogin(db.users, studentId, email);
    if found.None? {
      return Failed(401, "Invalid credentials");
    }
    var i := found.value;
    var user := db.users[i];
    var ok := compare(password, user.passwordHash);
    if !ok {
      return Failed(401, "Invalid credentials");
    }
    if user.isBanned {
      var bannedUntil := if user.bannedUntil.Some? then Some(user.bannedUntil.value) else None;
      if bannedUntil.Some? && bannedUntil.value != 0 && bannedUntil.value <= now {
        user := user.(isBanned := false);
        user := user.(bannedReason := None);
        user := user.(bannedUntil := None);
        db.SaveUser(i, user);
      } else {
        return BannedResponse(user);
      }
    }
    user := user.(lastActiveAt := Some(now));
    db.SaveUser(i, user);
    return LoggedIn(TokenPayload(user.id, user.studentId));
  }

  /** An unknown account and a wrong password get the same answer, and a ban is revealed
      only to someone who knows the password. */
  lemma LoginHidesAccounts(users: seq<User>, users1: seq<User>, users2: seq<User>,
                           r1: LoginResponse, r2: LoginResponse, studentId: string, email: string,
                           password: string, compare: (string, string) -> bool, now: Millis)
    requires studentId != "" || email != ""
    requires password != ""
    requires LookupForLogin(users, studentId, email).None? ||
             !compare(password, users[LookupForLogin(users, studentId, email).value].passwordHash)
    requires LoginEffect(users, users1, r1, studentId, email, password, compare, now)
    requires LoginEffect(users, users2, r2, studentId, email, password, compare, now)
    ensures r1 == r2 == Failed(401, "Invalid credentials") && users1 == users2 == users
  {
  }

  /** A ban for `d` > 0 minutes placed at time `t0` ≥ 0 refuses every login before
      t0 + d·60000 and is lifted by the first correct login from then on. */
  lemma TimedBanLifecycle(u: User, reason: Option<string>, d: int, t0: Millis, now: Millis)
    requires d > 0 && t0 >= 0
    ensures var b := ApplyBan(u, true, reason, BannedUntil(true, Some(d), t0));
            (StillBanned(b, now) <==> now < t0 + d * MinuteMillis)
            && (now >= t0 + d * MinuteMillis ==>
                  (!AfterLogin(b, now).isBanned && AfterLogin(b, now).bannedUntil == None))
  {
  }

  /** A ban without a positive duration never expires by itself; an unban always lets
      the user in. */
  lemma PermanentBanAndUnban(u: User, reason: Option<string>, d: Option<int>, t0: Millis, now: Millis)
    requires d.None? || d.value <= 0
    ensures StillBanned(ApplyBan(u, true, reason, BannedUntil(true, d, t0)), now)
    ensures !StillBanned(ApplyBan(u, false, reason, BannedUntil(false, d, t0)), now)
  {
  }
}
