/** The stored entities the routes read and write, and the database that holds them: one
    table per collection, each a sequence in the collection's natural order, so that a
    `findOne`/`findById` finds the first matching document. */
module Store {
  import opened Wrappers
  import opened Seqs

  /** A document id (an ObjectId in its string form). */
  type Id = string

  /** Time as milliseconds since the epoch. */
  type Millis = int

  /** The role enum of the user schema; a user may have no role. */
  datatype Role = Student | Admin | SuperAdmin | Tester

  datatype User = User(
    id: Id,
    studentId: string,
    email: string,
    passwordHash: string,
    name: Option<string>,
    firstName: Option<string>,
    lastName: Option<string>,
    role: Option<Role>,
    username: Option<string>,
    isBanned: bool,
    bannedReason: Option<string>,
    bannedUntil: Option<Millis>,
    lastActiveAt: Option<Millis>)

  /** One reaction on a message (its `createdAt` is not modelled). */
  datatype Reaction = Reaction(emoji: string, userId: Id)

  /** A chat message; older documents may have no `reactions` array. */
  datatype Message = Message(
    id: Id,
    senderId: Id,
    receiverId: Id,
    content: string,
    read: bool,
    reactions: Option<seq<Reaction>>)

  /** `followerId` follows `followingId`. */
  datatype Follow = Follow(followerId: Id, followingId: Id)

  datatype ResetToken = ResetToken(userId: Id, token: string, expiresAt: Millis, used: bool)

  datatype AdminAction = BanUserAction | UnbanUserAction

  datatype AdminLogEntry = AdminLogEntry(
    action: AdminAction,
    actorId: Id,
    actorStudentId: string,
    actorRole: Option<Role>,
    targetUserId: Id,
    targetStudentId: string,
    details: string,
    reason: Option<string>,
    durationMinutes: Option<int>,
    bannedUntil: Option<Millis>)

  /** An HTTP status with the body's message. */
  datatype Response = Response(status: nat, msg: string)

  /** The payload of a verified session token. */
  datatype TokenPayload = TokenPayload(id: Id, studentId: string)

  /** `User.findById(id)`: the position of the first user with this id. */
  function FindUser(users: seq<User>, id: Id): (r: Option<nat>)
    ensures r.Some? ==> r.value < |users| && users[r.value].id == id
    ensures r.None? <==> forall j :: 0 <= j < |users| ==> users[j].id != id
  {
    FirstIndex(users, (u: User) => u.id == id)
  }

  /** `Message.findById(id)` */
  function FindMessage(messages: seq<Message>, id: Id): (r: Option<nat>)
    ensures r.Some? ==> r.value < |messages| && messages[r.value].id == id
    ensures r.None? <==> forall j :: 0 <= j < |messages| ==> messages[j].id != id
  {
    FirstIndex(messages, (m: Message) => m.id == id)
  }

  /** Document ids are unique within each table. */
  ghost predicate UniqueUserIds(users: seq<User>) {
    forall i, j :: 0 <= i < j < |users| ==> users[i].id != users[j].id
  }

  /** Replacing a user by a record with the same id keeps ids unique. */
  lemma ReplaceKeepsUniqueIds(users: seq<User>, i: nat, u: User)
    requires UniqueUserIds(users) && i < |users| && u.id == users[i].id
    ensures UniqueUserIds(users[i := u])
  {
  }

  /** The collections. */
  class Database {
    var users: seq<User>
    var messages: seq<Message>
    var follows: seq<Follow>
    var resetTokens: seq<ResetToken>
    var adminLog: seq<AdminLogEntry>

    ghost predicate Valid()
      reads this
    {
      UniqueUserIds(users)
    }

    constructor (users: seq<User>, messages: seq<Message>, follows: seq<Follow>,
                 resetTokens: seq<ResetToken>)
      ensures this.users == users && this.messages == messages && this.follows == follows
      ensures this.resetTokens == resetTokens && adminLog == []
    {
      this.users := users;
      this.messages := messages;
      this.follows := follows;
      this.resetTokens := resetTokens;
      adminLog := [];
    }

    /** `user.save()` for a user previously found at position `i`. */
    method SaveUser(i: nat, u: User)
      requires i < |users| && u.id == users[i].id
      requires Valid()
      modifies this
      ensures Valid()
      ensures users == old(users)[i := u]
      ensures messages == old(messages) && follows == old(follows)
      ensures resetTokens == old(resetTokens) && adminLog == old(adminLog)
    {
      ReplaceKeepsUniqueIds(users, i, u);
      users := users[i := u];
    }
  }
}
