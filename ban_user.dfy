/** The ban/unban route: an admin or superadmin sets or clears a user's ban, with an
    optional expiry, and the action is written to the admin log. */
module BanUser {
  import opened Wrappers
  import opened Strings
  import opened Seqs
  import opened Store
  import opened AdminAuth

  const Forbidden: string := "Only admin/superadmin can ban users"
  const MinuteMillis: int := 60 * 1000

  /** Lines 69-82: an admin may act only on students; nobody may act on a superadmin. The
      admin rule is checked first. `None` means the action may go ahead. */
  function BanRefusal(actor: User, target: User): Option<Response> {
    if actor.role == Some(Admin) && target.role != Some(Student) then
      Some(Response(403, "Admin cannot ban other admin or superadmin"))
    else if target.role == Some(SuperAdmin) then
      Some(Response(400, "Cannot ban/unban superadmin"))
    else None
  }

  /** Who may ban whom: an admin only a student, a superadmin anyone but a superadmin. An
      admin aiming at a superadmin is refused with 403, not 400. */
  lemma BanRefusalExact(actor: User, target: User)
    requires IsStaff(actor.role)
    ensures BanRefusal(actor, target).None? <==>
              (actor.role == Some(Admin) && target.role == Some(Student))
              || (actor.role == Some(SuperAdmin) && target.role != Some(SuperAdmin))
    ensures actor.role == Some(Admin) && target.role == Some(SuperAdmin) ==>
              BanRefusal(actor, target).value.status == 403
    ensures actor.role == Some(SuperAdmin) && target.role == Some(SuperAdmin) ==>
              BanRefusal(actor, target).value.status == 400
  {
  }

  /** Lines 84-91: an expiry only for a ban with a positive duration (`durationMinutes &&
      durationMinutes > 0`); otherwise `null`, which for a ban means permanent. */
  function BannedUntil(ban: bool, durationMinutes: Option<int>, now: Millis): (r: Option<Millis>)
    ensures r.Some? <==> ban && durationMinutes.Some? && durationMinutes.value > 0
    ensures r.Some? ==> r.value == now + durationMinutes.value * MinuteMillis && r.value > now
  {
    if ban && durationMinutes.Some? && durationMinutes.value > 0 then
      Some(now + durationMinutes.value * MinuteMillis)
    else None
  }

  /** Lines 93-101: ban sets the flag, the reason (`reason || ""`) and the expiry; unban
      clears all three. */
  function ApplyBan(u: User, ban: bool, reason: Option<string>, until: Option<Millis>): User {
    if ban then u.(isBanned := true, bannedReason := Some(reason.GetOr("")), bannedUntil := until)
    else u.(isBanned := false, bannedReason := None, bannedUntil := None)
  }

  /** Only the three ban fields change, an unban after a ban leaves no trace of it, and
      banning twice keeps only the second ban. */
  lemma ApplyBanProperties(u: User, reason: Option<string>, until: Option<Millis>,
                           reason2: Option<string>, until2: Option<Millis>)
    ensures ApplyBan(u, true, reason, until).(isBanned := u.isBanned, bannedReason := u.bannedReason,
                                               bannedUntil := u.bannedUntil) == u
    ensures ApplyBan(ApplyBan(u, true, reason, until), false, reason2, until2) ==
              ApplyBan(u, false, reason2, until2)
    ensures ApplyBan(ApplyBan(u, true, reason, until), true, reason2, until2) ==
              ApplyBan(u, true, reason2, until2)
    ensures ApplyBan(u, true, reason, until).isBanned && !ApplyBan(u, false, reason, until).isBanned
  {
  }

  /** `details`: "Banned user S for D minutes", "Banned user S (permanent)" or
      "Unbanned user S". */
  function Details(ban: bool, studentId: string, durationMinutes: Option<int>, until: Option<Millis>): string {
    if !ban then "Unbanned user " + studentId
    else if until.Some? && durationMinutes.Some? && durationMinutes.value > 0 then
      "Banned user " + studentId + " for " + NatToString(durationMinutes.value) + " minutes"
    else "Banned user " + studentId + " (permanent)"
  }

  /** The `AdminLog.create` record. `reason || null` drops an empty reason and
      `durationMinutes || null` drops a zero duration. */
  function LogEntry(actor: User, target: User, ban: bool, reason: Option<string>,
                    durationMinutes: Option<int>, until: Option<Millis>): (e: AdminLogEntry)
    ensures e.action == (if ban then BanUserAction else UnbanUserAction)
    ensures e.actorId == actor.id && e.targetUserId == target.id
    ensures e.reason.Some? ==> e.reason.value != ""
  {
    AdminLogEntry(
      if ban then BanUserAction else UnbanUserAction,
      actor.id, actor.studentId, actor.role, target.id, target.studentId,
      Details(ban, target.studentId, durationMinutes, until),
      if reason.Some? && reason.value != "" then reason else None,
      if durationMinutes.Some? && durationMinutes.value != 0 then durationMinutes else None,
      until)
  }

  /** The effect of the route on the user table and the admin log, and its response, for a
      given token lookup: each refusal leaves both tables as they were and returns no user; a
      permitted action replaces the target by its banned or unbanned version, appends one
      log entry and returns the saved record beside "OK". */
  ghost predicate BanEffect(users0: seq<User>, log0: seq<AdminLogEntry>,
                            users: seq<User>, log: seq<AdminLogEntry>, resp: Response,
                            replyUser: Option<User>, lookup: TokenLookup, verify: string -> Option<TokenPayload>,
                            userId: Id, ban: Option<bool>, reason: Option<string>,
                            durationMinutes: Option<int>, now: Millis)
  {
    var auth := AuthenticateAdmin(users0, lookup, verify, Forbidden);
    var t := FindUser(users0, userId);
    if auth.Refused? then
      resp == auth.response && replyUser.None? && users == users0 && log == log0
    else if userId == "" || ban.None? then
      resp == Response(400, "userId and ban are required") && replyUser.None? && users == users0 && log == log0
    else if t.None? then
      resp == Response(404, "User not found") && replyUser.None? && users == users0 && log == log0
    else if BanRefusal(users0[auth.index], users0[t.value]).Some? then
      resp == BanRefusal(users0[auth.index], users0[t.value]).value && replyUser.None?
      && users == users0 && log == log0
    else
      var until := BannedUntil(ban.value, durationMinutes, now);
      var updated := ApplyBan(users0[t.value], ban.value, reason, until);
      resp == Response(200, "OK") && replyUser == Some(updated)
      && users == users0[t.value := updated]
      && log == log0 + [LogEntry(users0[auth.index], updated, ban.value, reason, durationMinutes, until)]
  }

  /** Lines 84-101: the expiry, then the three ban fields set one by one. */
  method BanFields(u: User, ban: bool, reason: Option<string>, durationMinutes: Option<int>,
                   now: Millis)
    returns (updated: User, bannedUntil: Option<Millis>)
    ensures bannedUntil == BannedUntil(ban, durationMinutes, now)
    ensures updated == ApplyBan(u, ban, reason, bannedUntil)
  {
    bannedUntil := None;
    if ban && durationMinutes.Some? && durationMinutes.value > 0 {
      bannedUntil := Some(now + durationMinutes.value * MinuteMillis);
    }
    updated := u;
    if ban {
      updated := updated.(isBanned := true);
      updated := updated.(bannedReason := Some(if reason.Some? && reason.value != "" then reason.value else ""));
      updated := updated.(bannedUntil := bannedUntil);
    } else {
      updated := updated.(isBanned := false);
      updated := updated.(bannedReason := None);
      updated := updated.(bannedUntil := None);
    }
  }

  /** `POST /api/admin/ban-user`. `ban` is `None` when the body's `ban` is not a boolean;
      `userId` is "" when missing. `replyUser` is the `user` field of the success reply. */
  method Post(db: Database, header: Option<string>, decode: string -> Option<string>,
              verify: string -> Option<TokenPayload>, userId: Id, ban: Option<bool>,
              reason: Option<string>, durationMinutes: Option<int>, now: Millis)
    returns (resp: Response, replyUser: Option<User>)
    requires db.Valid()
    modifies db
    ensures db.Valid()
    ensures db.messages == old(db.messages) && db.follows == old(db.follows)
    ensures db.resetTokens == old(db.resetTokens)
    ensures BanEffect(old(db.users), old(db.adminLog), db.users, db.adminLog, resp, replyUser,
                      TokenFromCookie(header, decode), verify, userId, ban, reason, durationMinutes, now)
  {
    var lookup := GetTokenFromRequest(header, decode);
    resp, replyUser := Handle(db, lookup, verify, userId, ban, reason, durationMinutes, now);
  }

  /** The route after `getTokenFromRequest`. */
  method Handle(db: Database, lookup: TokenLookup,
                verify: string -> Option<TokenPayload>, userId: Id, ban: Option<bool>,
                reason: Option<string>, durationMinutes: Option<int>, now: Millis)
    returns (resp: Response, replyUser: Option<User>)
    requires db.Valid()
    modifies db
    ensures db.Valid()
    ensures db.messages == old(db.messages) && db.follows == old(db.follows)
    ensures db.resetTokens == old(db.resetTokens)
    ensures BanEffect(old(db.users), old(db.adminLog), db.users, db.adminLog, resp, replyUser,
                      lookup, verify, userId, ban, reason, durationMinutes, now)
  {
    var auth := AuthenticateAdmin(db.users, lookup, verify, Forbidden);
    if auth.Refused? {
      return auth.response, None;
    }
    var adminUser := db.users[auth.index];
    if userId == "" || ban.None? {
      return Response(400, "userId and ban are required"), None;
    }
    var found := FindUser(db.users, userId);
    if found.None? {
      return Response(404, "User not found"), None;
    }
    var targetUser := db.users[found.value];
    if adminUser.role == Some(Admin) && targetUser.role != Some(Student) {
      return Response(403, "Admin cannot ban other admin or superadmin"), None;
    }
    if targetUser.role == Some(SuperAdmin) {
      return Response(400, "Cannot ban/unban superadmin"), None;
    }
    assert BanRefusal(adminUser, targetUser).None?;
    var updated := SaveAndLog(db, adminUser, found.value, ban.value, reason, durationMinutes, now);
    return Response(200, "OK"), Some(updated);
  }

  /** Lines 84-125 once the action is permitted: compute the ban fields, save the target and
      append the log entry. */
  method SaveAndLog(db: Database, adminUser: User, t: nat, ban: bool, reason: Option<string>,
                    durationMinutes: Option<int>, now: Millis)
    returns (saved: User)
    requires db.Valid() && t < |db.users|
    modifies db
    ensures db.Valid()
    ensures db.messages == old(db.messages) && db.follows == old(db.follows)
    ensures db.resetTokens == old(db.resetTokens)
    ensures var until := BannedUntil(ban, durationMinutes, now);
            var updated := ApplyBan(old(db.users)[t], ban, reason, until);
            saved == updated && db.users == old(db.users)[t := updated]
            && db.adminLog == old(db.adminLog) + [LogEntry(adminUser, updated, ban, reason, durationMinutes, until)]
  {
    var targetUser, bannedUntil := BanFields(db.users[t], ban, reason, durationMinutes, now);
    db.SaveUser(t, targetUser);
    saved := targetUser;
    db.adminLog := db.adminLog
      + [LogEntry(adminUser, targetUser, ban, reason, durationMinutes, bannedUntil)];
  }
}
