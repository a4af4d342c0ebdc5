/** `POST /api/auth/request-reset`: replaces the user's unused reset tokens by one issued
    token valid for fifteen minutes and answers with its link. */
module RequestReset {
  import opened Wrappers
  import opened Seqs
  import opened Store

  const TokenLifetime: int := 1000 * 60 * 15
  const DefaultBaseUrl: string := "http://localhost:3000"
  const Required: string := "Email or CyberVidya ID is required"
  const NoAccount: string := "If an account exists with these details, a reset link has been generated."
  const Created: string := "If an account exists, a reset link has been created (for dev, see resetUrl)."

  /** `NEXT_PUBLIC_APP_URL || "http://localhost:3000"` (`env` is "" when unset). */
  function BaseUrl(env: string): (r: string)
    ensures r != ""
    ensures env != "" ==> r == env
  {
    if env != "" then env else DefaultBaseUrl
  }

  /** `User.findOne(email ? { email } : { studentId })`: a given email decides alone. */
  function LookupForReset(users: seq<User>, email: string, studentId: string): (r: Option<nat>)
    ensures r.Some? ==> r.value < |users|
    ensures r.Some? && email != "" ==> users[r.value].email == email
    ensures r.Some? && email == "" ==> users[r.value].studentId == studentId
    ensures r.None? <==> forall j :: 0 <= j < |users| ==>
              if email != "" then users[j].email != email else users[j].studentId != studentId
  {
    if email != "" then FirstIndex(users, (u: User) => u.email == email)
    else FirstIndex(users, (u: User) => u.studentId == studentId)
  }

  function UnusedFor(userId: Id): ResetToken -> bool {
    (t: ResetToken) => t.userId == userId && !t.used
  }

  function NotUnusedFor(userId: Id): ResetToken -> bool {
    (t: ResetToken) => !(t.userId == userId && !t.used)
  }

  /** `deleteMany({ userId, used: false })` */
  function PurgeUnused(tokens: seq<ResetToken>, userId: Id): seq<ResetToken> {
    Filter(tokens, NotUnusedFor(userId))
  }

  /** The table after a request for `userId`. */
  function Reissued(tokens: seq<ResetToken>, userId: Id, token: string, now: Millis): seq<ResetToken> {
    PurgeUnused(tokens, userId) + [ResetToken(userId, token, now + TokenLifetime, false)]
  }

  /** Afterwards the user holds exactly one unused token: the new one, expiring fifteen
      minutes from now. */
  lemma ReissuedSingleLiveToken(tokens: seq<ResetToken>, userId: Id, token: string, now: Millis)
    ensures Filter(Reissued(tokens, userId, token, now), UnusedFor(userId)) ==
              [ResetToken(userId, token, now + 900000, false)]
  {
    var purged := PurgeUnused(tokens, userId);
    var issued := ResetToken(userId, token, now + TokenLifetime, false);
    FilterAppend(purged, [issued], UnusedFor(userId));
    FilterSatisfies(tokens, NotUnusedFor(userId));
    FilterNone(purged, UnusedFor(userId));
    assert [issued][1..] == [];
  }

  /** Used tokens and other users' tokens stay, in their order. */
  lemma ReissuedKeepsOthers(tokens: seq<ResetToken>, userId: Id, token: string, now: Millis)
    ensures Filter(Reissued(tokens, userId, token, now), NotUnusedFor(userId)) ==
              Filter(tokens, NotUnusedFor(userId))
  {
    var purged := PurgeUnused(tokens, userId);
    var issued := ResetToken(userId, token, now + TokenLifetime, false);
    FilterAppend(purged, [issued], NotUnusedFor(userId));
    FilterSatisfies(tokens, NotUnusedFor(userId));
    FilterAll(purged, NotUnusedFor(userId));
    assert [issued][1..] == [];
  }

  datatype ResetReply = ResetReply(status: nat, msg: string, resetUrl: Option<string>)

  /** The handler. `token` stands for the 64 hex digits of 32 random bytes and `env` for
      `NEXT_PUBLIC_APP_URL`. */
  method Post(db: Database, email: string, studentId: string, token: string, env: string, now: Millis)
    returns (r: ResetReply)
    modifies db
    ensures db.users == old(db.users) && db.messages == old(db.messages)
    ensures db.follows == old(db.follows) && db.adminLog == old(db.adminLog)
    ensures email == "" && studentId == "" ==>
              r == ResetReply(400, Required, None) && db.resetTokens == old(db.resetTokens)
    ensures email != "" || studentId != "" ==>
              match LookupForReset(old(db.users), email, studentId)
              case None => r == ResetReply(200, NoAccount, None) && db.resetTokens == old(db.resetTokens)
              case Some(i) =>
                db.resetTokens == Reissued(old(db.resetTokens), old(db.users)[i].id, token, now) &&
                r == ResetReply(200, Created, Some(BaseUrl(env) + "/reset-password/" + token))
  {
    if email == "" && studentId == "" {
      return ResetReply(400, Required, None);
    }
    var found := LookupForReset(db.users, email, studentId);
    if found.None? {
      return ResetReply(200, NoAccount, None);
    }
    var user := db.users[found.value];
    db.resetTokens := PurgeUnused(db.resetTokens, user.id);
    var expiresAt := now + 1000 * 60 * 15;
    db.resetTokens := db.resetTokens + [ResetToken(user.id, token, expiresAt, false)];
    var resetUrl := BaseUrl(env) + "/reset-password/" + token;
    return ResetReply(200, Created, Some(resetUrl));
  }
}
