/** The friends route of the chat: the caller's activity stamp, the mutual-follow friend
    list, each friend's online flag (active within the last five minutes) and unread
    count. */
module ChatFriends {
  import opened Wrappers
  import opened Seqs
  import opened Store

  const OnlineWindow: int := 5 * 60 * 1000

  /** `isUserOnline`: a stamp strictly later than five minutes ago. */
  predicate IsUserOnline(lastActiveAt: Option<Millis>, now: Millis) {
    lastActiveAt.Some? && lastActiveAt.value > now - OnlineWindow
  }

  /** Online means active less than five minutes ago; a later stamp is never less
      online, and going offline is permanent without new activity. */
  lemma IsUserOnlineWindow(t: Millis, t2: Millis, now: Millis, later: Millis)
    ensures IsUserOnline(Some(t), now) <==> now - t < OnlineWindow
    ensures !IsUserOnline(None, now)
    ensures t <= t2 && IsUserOnline(Some(t), now) ==> IsUserOnline(Some(t2), now)
    ensures now <= later && !IsUserOnline(Some(t), now) ==> !IsUserOnline(Some(t), later)
    ensures IsUserOnline(Some(now), now)
  {
  }

  predicate Follows(follows: seq<Follow>, a: Id, b: Id) {
    Follow(a, b) in follows
  }

  /** `following.map((f) => f.followingId)` over `Follow.find({ followerId: me })` */
  function FollowingIds(follows: seq<Follow>, me: Id): seq<Id> {
    var mine := Filter(follows, (f: Follow) => f.followerId == me);
    seq(|mine|, i requires 0 <= i < |mine| => mine[i].followingId)
  }

  /** The follower ids of the follows into `me` whose follower `me` follows. */
  function FriendIds(follows: seq<Follow>, me: Id): seq<Id> {
    var following := FollowingIds(follows, me);
    var back := Filter(follows, (f: Follow) => f.followingId == me && f.followerId in following);
    seq(|back|, i requires 0 <= i < |back| => back[i].followerId)
  }

  lemma FollowingIdsExact(follows: seq<Follow>, me: Id, x: Id)
    ensures x in FollowingIds(follows, me) <==> Follows(follows, me, x)
  {
    var p := (f: Follow) => f.followerId == me;
    var mine := Filter(follows, p);
    FilterMembers(follows, p);
    if x in FollowingIds(follows, me) {
      var i :| 0 <= i < |mine| && mine[i].followingId == x;
      assert mine[i] == Follow(me, x);
    }
    if Follows(follows, me, x) {
      var j :| 0 <= j < |follows| && follows[j] == Follow(me, x);
      assert p(follows[j]);
      var i :| 0 <= i < |mine| && mine[i] == follows[j];
      assert FollowingIds(follows, me)[i] == x;
    }
  }

  /** The friend ids are exactly the users who follow `me` and whom `me` follows. */
  lemma FriendIdsExact(follows: seq<Follow>, me: Id, x: Id)
    ensures x in FriendIds(follows, me) <==> Follows(follows, me, x) && Follows(follows, x, me)
  {
    var following := FollowingIds(follows, me);
    var p := (f: Follow) => f.followingId == me && f.followerId in following;
    var back := Filter(follows, p);
    FilterMembers(follows, p);
    FollowingIdsExact(follows, me, x);
    if x in FriendIds(follows, me) {
      var i :| 0 <= i < |back| && back[i].followerId == x;
      assert back[i] == Follow(x, me);
    }
    if Follows(follows, me, x) && Follows(follows, x, me) {
      var j :| 0 <= j < |follows| && follows[j] == Follow(x, me);
      assert p(follows[j]);
      var i :| 0 <= i < |back| && back[i] == follows[j];
      assert FriendIds(follows, me)[i] == x;
    }
  }

  /** `User.find({ _id: { $in: friendIds } })`, in table order. */
  function FriendUsers(users: seq<User>, follows: seq<Follow>, me: Id): seq<User> {
    var ids := FriendIds(follows, me);
    Filter(users, (u: User) => u.id in ids)
  }

  /** The friend list holds exactly the users in a mutual follow with the caller. */
  lemma FriendUsersMutual(users: seq<User>, follows: seq<Follow>, me: Id)
    ensures forall i :: 0 <= i < |FriendUsers(users, follows, me)| ==>
              FriendUsers(users, follows, me)[i] in users &&
              Follows(follows, me, FriendUsers(users, follows, me)[i].id) &&
              Follows(follows, FriendUsers(users, follows, me)[i].id, me)
    ensures forall j :: (0 <= j < |users| && Follows(follows, me, users[j].id) &&
              Follows(follows, users[j].id, me)) ==> users[j] in FriendUsers(users, follows, me)
  {
    var ids := FriendIds(follows, me);
    var p := (u: User) => u.id in ids;
    FilterMembers(users, p);
    var fr := FriendUsers(users, follows, me);
    forall i | 0 <= i < |fr|
      ensures fr[i] in users && Follows(follows, me, fr[i].id) && Follows(follows, fr[i].id, me)
    {
      FriendIdsExact(follows, me, fr[i].id);
    }
    forall j | 0 <= j < |users| && Follows(follows, me, users[j].id) && Follows(follows, users[j].id, me)
      ensures users[j] in fr
    {
      FriendIdsExact(follows, me, users[j].id);
    }
  }

  predicate IsUnreadFrom(m: Message, friendId: Id, me: Id) {
    m.senderId == friendId && m.receiverId == me && !m.read
  }

  /** `Message.countDocuments({ senderId: friend, receiverId: me, read: false })` */
  function UnreadCount(messages: seq<Message>, friendId: Id, me: Id): nat {
    Count(messages, (m: Message) => IsUnreadFrom(m, friendId, me))
  }

  /** A new message raises the count by one exactly when it is an unread one from that
      friend to the caller. */
  lemma UnreadCountAfterSend(messages: seq<Message>, m: Message, friendId: Id, me: Id)
    ensures UnreadCount(messages + [m], friendId, me) ==
              UnreadCount(messages, friendId, me) + (if IsUnreadFrom(m, friendId, me) then 1 else 0)
  {
    var p := (x: Message) => IsUnreadFrom(x, friendId, me);
    CountAppend(messages, [m], p);
    assert [m][1..] == [];
  }

  /** One entry of the response. */
  datatype FriendView = FriendView(
    id: Id,
    name: Option<string>,
    username: Option<string>,
    studentId: string,
    role: Option<Role>,
    isOnline: bool,
    unreadCount: nat)

  function View(f: User, messages: seq<Message>, me: Id, now: Millis): FriendView {
    FriendView(f.id, f.name, f.username, f.studentId, f.role,
               IsUserOnline(f.lastActiveAt, now), UnreadCount(messages, f.id, me))
  }

  /** `formattedFriends` */
  function FriendViews(users: seq<User>, follows: seq<Follow>, messages: seq<Message>,
                       me: Id, now: Millis): (r: seq<FriendView>)
    ensures |r| == |FriendUsers(users, follows, me)|
    ensures forall k :: 0 <= k < |r| ==>
              r[k].id == FriendUsers(users, follows, me)[k].id &&
              r[k].isOnline == IsUserOnline(FriendUsers(users, follows, me)[k].lastActiveAt, now) &&
              r[k].unreadCount == UnreadCount(messages, r[k].id, me)
  {
    var fr := FriendUsers(users, follows, me);
    seq(|fr|, k requires 0 <= k < |fr| => View(fr[k], messages, me, now))
  }

  datatype FriendsResponse = Unauthorized | FriendsList(friends: seq<FriendView>)

  /** The caller's record after `findByIdAndUpdate(me, { lastActiveAt: now })`; an unknown
      id updates nothing. */
  function Touch(users: seq<User>, me: Id, now: Millis): (r: seq<User>)
    ensures |r| == |users|
    ensures forall j :: 0 <= j < |users| ==> r[j].id == users[j].id
    ensures FindUser(users, me).Some? ==> r[FindUser(users, me).value].lastActiveAt == Some(now)
    ensures forall j :: 0 <= j < |users| && j != (match FindUser(users, me) case None => -1 case Some(k) => k) ==>
              r[j] == users[j]
  {
    match FindUser(users, me)
    case None => users
    case Some(i) => users[i := users[i].(lastActiveAt := Some(now))]
  }

  /** `GET /api/chat/friends`. `token` is the `token` cookie (`None` when absent). */
  method Get(db: Database, token: Option<string>, verify: string -> Option<TokenPayload>, now: Millis)
    returns (r: FriendsResponse)
    requires db.Valid()
    modifies db
    ensures db.Valid()
    ensures db.messages == old(db.messages) && db.follows == old(db.follows)
    ensures db.resetTokens == old(db.resetTokens) && db.adminLog == old(db.adminLog)
    ensures (token.None? || token.value == "" || verify(token.value).None? || verify(token.value).value.id == "")
              ==> r == Unauthorized && db.users == old(db.users)
    ensures (token.Some? && token.value != "" && verify(token.value).Some? && verify(token.value).value.id != "")
              ==> (var me := verify(token.value).value.id;
                   r.FriendsList? && db.users == Touch(old(db.users), me, now) &&
                   r.friends == FriendViews(db.users, db.follows, db.messages, me, now))
  {
    if token.None? || token.value == "" {
      return Unauthorized;
    }
    var decoded := verify(token.value);
    if decoded.None? || decoded.value.id == "" {
      return Unauthorized;
    }
    var me := decoded.value.id;
    var found := FindUser(db.users, me);
    if found.Some? {
      db.SaveUser(found.value, db.users[found.value].(lastActiveAt := Some(now)));
    }
    assert db.users == Touch(old(db.users), me, now);
    return FriendsList(FriendViews(db.users, db.follows, db.messages, me, now));
  }

  /** The value the `forEach` leaves for `id` in `unreadMap`: the count of the last group
      with that id. */
  function LastCount(groups: seq<(Id, nat)>, id: Id): Option<nat> {
    if groups == [] then None
    else if groups[|groups| - 1].0 == id then Some(groups[|groups| - 1].1)
    else LastCount(groups[..|groups| - 1], id)
  }

  function GroupIds(groups: seq<(Id, nat)>): set<Id> {
    set i | 0 <= i < |groups| :: groups[i].0
  }

  /** Lines 74-77: `unreadMap[u._id] = u.count` for each aggregated group in turn. */
  method BuildUnreadMap(groups: seq<(Id, nat)>) returns (unreadMap: map<Id, nat>)
    ensures unreadMap.Keys == GroupIds(groups)
    ensures forall id :: id in unreadMap ==> LastCount(groups, id) == Some(unreadMap[id])
  {
    unreadMap := map[];
    var i := 0;
    while i < |groups|
      invariant 0 <= i <= |groups|
      invariant unreadMap.Keys == GroupIds(groups[..i])
      invariant forall id :: id in unreadMap ==> LastCount(groups[..i], id) == Some(unreadMap[id])
    {
      assert groups[..i + 1][..i] == groups[..i];
      assert GroupIds(groups[..i + 1]) == GroupIds(groups[..i]) + {groups[i].0} by {
        forall x | x in GroupIds(groups[..i + 1])
          ensures x in GroupIds(groups[..i]) + {groups[i].0}
        {
          var j :| 0 <= j < i + 1 && groups[..i + 1][j].0 == x;
          if j < i {
            assert groups[..i + 1][j] == groups[..i][j];
          }
        }
        forall x | x in GroupIds(groups[..i])
          ensures x in GroupIds(groups[..i + 1])
        {
          var j :| 0 <= j < i && groups[..i][j].0 == x;
          assert groups[..i + 1][j] == groups[..i][j];
        }
        assert groups[..i + 1][i] == groups[i];
      }
      unreadMap := unreadMap[groups[i].0 := groups[i].1];
      i := i + 1;
    }
    assert groups[..i] == groups;
  }
}
