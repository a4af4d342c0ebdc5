/** The reaction toggle on a chat message: the first entry of the same user with the
    same emoji is removed, otherwise a new entry is appended. The route and the chat
    page's optimistic update both apply it. */
module Reactions {
  import opened Wrappers
  import opened Seqs
  import opened Store

  /** `r.userId === userId && r.emoji === emoji` */
  function Matches(userId: Id, emoji: string): Reaction -> bool {
    (r: Reaction) => r.userId == userId && r.emoji == emoji
  }

  /** `reactions.findIndex(...)`: -1 when there is no match. */
  function FindIndex(rs: seq<Reaction>, userId: Id, emoji: string): (i: int)
    ensures -1 <= i < |rs|
    ensures i >= 0 ==> Matches(userId, emoji)(rs[i]) && forall j :: 0 <= j < i ==> !Matches(userId, emoji)(rs[j])
    ensures i == -1 <==> forall j :: 0 <= j < |rs| ==> !Matches(userId, emoji)(rs[j])
  {
    match FirstIndex(rs, Matches(userId, emoji))
    case None => -1
    case Some(k) => k
  }

  /** The toggle both sides perform. */
  function Toggle(rs: seq<Reaction>, userId: Id, emoji: string): seq<Reaction> {
    var i := FindIndex(rs, userId, emoji);
    if i > -1 then rs[..i] + rs[i + 1..] else rs + [Reaction(emoji, userId)]
  }

  /** The message once the toggle is applied; a message without a reactions array starts
      from an empty one. */
  function Reacted(m: Message, userId: Id, emoji: string): (r: Message)
    ensures r.id == m.id && r.senderId == m.senderId && r.receiverId == m.receiverId
    ensures r.content == m.content && r.read == m.read && r.reactions.Some?
  {
    m.(reactions := Some(Toggle(m.reactions.GetOr([]), userId, emoji)))
  }

  /** The number of entries of that user with that emoji goes from zero to one, and from
      any positive count down by one. */
  lemma ToggleCount(rs: seq<Reaction>, userId: Id, emoji: string)
    ensures Count(Toggle(rs, userId, emoji), Matches(userId, emoji)) ==
              if Count(rs, Matches(userId, emoji)) == 0 then 1 else Count(rs, Matches(userId, emoji)) - 1
  {
    var p := Matches(userId, emoji);
    var i := FindIndex(rs, userId, emoji);
    if i > -1 {
      assert rs == rs[..i] + [rs[i]] + rs[i + 1..];
      CountAppend(rs[..i] + [rs[i]], rs[i + 1..], p);
      CountAppend(rs[..i], [rs[i]], p);
      CountAppend(rs[..i], rs[i + 1..], p);
      assert Count(rs[..i], p) == 0;
      assert [rs[i]][1..] == [];
    } else {
      CountAppend(rs, [Reaction(emoji, userId)], p);
      var added: seq<Reaction> := [Reaction(emoji, userId)];
      assert added[1..] == [];
    }
  }

  /** Entries of any other user or emoji keep their count. */
  lemma ToggleKeepsOtherCounts(rs: seq<Reaction>, userId: Id, emoji: string, otherUser: Id, otherEmoji: string)
    requires otherUser != userId || otherEmoji != emoji
    ensures Count(Toggle(rs, userId, emoji), Matches(otherUser, otherEmoji)) ==
              Count(rs, Matches(otherUser, otherEmoji))
  {
    var q := Matches(otherUser, otherEmoji);
    var i := FindIndex(rs, userId, emoji);
    if i > -1 {
      assert rs == rs[..i] + [rs[i]] + rs[i + 1..];
      CountAppend(rs[..i] + [rs[i]], rs[i + 1..], q);
      CountAppend(rs[..i], [rs[i]], q);
      CountAppend(rs[..i], rs[i + 1..], q);
      assert [rs[i]][1..] == [];
    } else {
      CountAppend(rs, [Reaction(emoji, userId)], q);
      var added: seq<Reaction> := [Reaction(emoji, userId)];
      assert added[1..] == [];
    }
  }

  function Others(userId: Id, emoji: string): Reaction -> bool {
    (r: Reaction) => !(r.userId == userId && r.emoji == emoji)
  }

  /** All other entries stay, in their order. */
  lemma ToggleKeepsOthers(rs: seq<Reaction>, userId: Id, emoji: string)
    ensures Filter(Toggle(rs, userId, emoji), Others(userId, emoji)) == Filter(rs, Others(userId, emoji))
  {
    var q := Others(userId, emoji);
    var i := FindIndex(rs, userId, emoji);
    if i > -1 {
      assert rs == rs[..i] + [rs[i]] + rs[i + 1..];
      assert !q(rs[i]);
      FilterSkip(rs[..i], rs[i], rs[i + 1..], q);
    } else {
      var x := Reaction(emoji, userId);
      assert rs + [x] == rs + [x] + [] && rs == rs + [];
      FilterSkip(rs, x, [], q);
    }
  }

  /** Toggling twice from "not reacted" gives back the same array. */
  lemma ToggleTwice(rs: seq<Reaction>, userId: Id, emoji: string)
    requires FindIndex(rs, userId, emoji) == -1
    ensures Toggle(Toggle(rs, userId, emoji), userId, emoji) == rs
  {
    var x := Reaction(emoji, userId);
    var t := rs + [x];
    FirstIndexIs(t, Matches(userId, emoji), |rs|);
    assert FindIndex(t, userId, emoji) == |rs|;
    assert t[..|rs|] == rs && t[|rs| + 1..] == [];
  }

  /** No user holds the same emoji twice on a message. */
  ghost predicate AtMostOnce(rs: seq<Reaction>) {
    forall u: Id, e: string :: Count(rs, Matches(u, e)) <= 1
  }

  /** The toggle keeps that, and under it the entry is present afterwards exactly when it
      was absent before. */
  lemma ToggleKeepsAtMostOnce(rs: seq<Reaction>, userId: Id, emoji: string)
    requires AtMostOnce(rs)
    ensures AtMostOnce(Toggle(rs, userId, emoji))
    ensures Count(Toggle(rs, userId, emoji), Matches(userId, emoji)) == 1 - Count(rs, Matches(userId, emoji))
  {
    ToggleCount(rs, userId, emoji);
    forall u: Id, e: string
      ensures Count(Toggle(rs, userId, emoji), Matches(u, e)) <= 1
    {
      if u != userId || e != emoji {
        ToggleKeepsOtherCounts(rs, userId, emoji, u, e);
      }
      assert Count(rs, Matches(u, e)) <= 1;
    }
  }

  datatype ReactionReply = ReactionError(status: nat, error: string) | Updated(message: Message)

  /** `POST /api/chat/reaction`. `token` is the `token` cookie. */
  method Post(db: Database, token: Option<string>, verify: string -> Option<TokenPayload>,
              messageId: string, emoji: string) returns (r: ReactionReply)
    modifies db
    ensures db.users == old(db.users) && db.follows == old(db.follows)
    ensures db.resetTokens == old(db.resetTokens) && db.adminLog == old(db.adminLog)
    ensures token.None? || token.value == "" || verify(token.value).None? || verify(token.value).value.id == "" ==>
              r == ReactionError(401, "Unauthorized") && db.messages == old(db.messages)
    ensures token.Some? && token.value != "" && verify(token.value).Some? && verify(token.value).value.id != "" ==>
              if messageId == "" || emoji == "" then
                r == ReactionError(400, "Missing fields") && db.messages == old(db.messages)
              else match FindMessage(old(db.messages), messageId)
                case None => r == ReactionError(404, "Message not found") && db.messages == old(db.messages)
                case Some(i) =>
                  db.messages == old(db.messages)[i := Reacted(old(db.messages)[i], verify(token.value).value.id, emoji)] &&
                  r == Updated(db.messages[i])
  {
    if token.None? || token.value == "" {
      return ReactionError(401, "Unauthorized");
    }
    var user := verify(token.value);
    if user.None? || user.value.id == "" {
      return ReactionError(401, "Unauthorized");
    }
    if messageId == "" || emoji == "" {
      return ReactionError(400, "Missing fields");
    }
    var found := FindMessage(db.messages, messageId);
    if found.None? {
      return ReactionError(404, "Message not found");
    }
    var message := db.messages[found.value];
    if message.reactions.None? {
      message := message.(reactions := Some([]));
    }
    var reactions := message.reactions.value;
    var existing := FindIndex(reactions, user.value.id, emoji);
    if existing > -1 {
      reactions := reactions[..existing] + reactions[existing + 1..];
    } else {
      reactions := reactions + [Reaction(emoji, user.value.id)];
    }
    message := message.(reactions := Some(reactions));
    db.messages := db.messages[found.value := message];
    return Updated(message);
  }
}
