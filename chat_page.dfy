/** The chat page: the friend sidebar (unread badges, selection clearing the badge), the
    reaction bubbles under a message, the optimistic reaction toggle and the send box. */
module ChatPage {
  import opened Wrappers
  import opened Seqs
  import opened Strings
  import opened Store
  import opened Reactions

  /** A sidebar entry as the friends route returns it. */
  datatype ChatFriend = ChatFriend(
    id: Id,
    name: string,
    username: Option<string>,
    studentId: string,
    isOnline: Option<bool>,
    unreadCount: Option<int>)

  /** Lines 188-191: no badge unless the count is a positive number, "99+" above 99. */
  function Badge(unread: Option<int>): Option<string> {
    if unread.Some? && unread.value > 0 then
      Some(if unread.value > 99 then "99+" else NatToString(unread.value))
    else None
  }

  lemma BadgeExact(unread: Option<int>)
    ensures Badge(unread).None? <==> unread.None? || unread.value <= 0
    ensures Badge(unread) == Some("99+") <==> unread.Some? && unread.value > 99
    ensures unread.Some? && 0 < unread.value <= 99 ==>
              Badge(unread).Some? && |Badge(unread).value| <= 2 &&
              (forall i :: 0 <= i < |Badge(unread).value| ==> '0' <= Badge(unread).value[i] <= '9') &&
              DecimalValue(Badge(unread).value) == unread.value
  {
    if unread.Some? && 0 < unread.value <= 99 {
      var n: nat := unread.value;
      DecimalRoundTrip(n);
      var s := NatToString(n);
      assert "99+"[2] == '+';
      assert s != "99+" by {
        if |s| == 3 {
          assert '0' <= s[2] <= '9';
        }
      }
      if n >= 10 {
        assert NatToString(n) == NatToString(n / 10) + [DigitChar(n % 10)];
      }
    }
  }

  /** Lines 86 and 111: the selected friend's count becomes 0, nothing else changes. */
  function ClearUnread(friends: seq<ChatFriend>, id: Id): (r: seq<ChatFriend>)
    ensures |r| == |friends|
    ensures forall i :: 0 <= i < |r| ==> r[i].id == friends[i].id
    ensures forall i :: 0 <= i < |r| && friends[i].id == id ==>
              Badge(r[i].unreadCount).None? && r[i] == friends[i].(unreadCount := Some(0))
    ensures forall i :: 0 <= i < |r| && friends[i].id != id ==> r[i] == friends[i]
  {
    seq(|friends|, i requires 0 <= i < |friends| =>
      if friends[i].id == id then friends[i].(unreadCount := Some(0)) else friends[i])
  }

  function FindFriend(friends: seq<ChatFriend>, id: Id): Option<nat> {
    FirstIndex(friends, (f: ChatFriend) => f.id == id)
  }

  /** The sidebar state of `ChatContent`. */
  class ChatContent {
    var friends: seq<ChatFriend>
    var selected: Option<ChatFriend>
    var loadingFriends: bool

    constructor ()
      ensures friends == [] && selected.None? && loadingFriends
    {
      friends := [];
      selected := None;
      loadingFriends := true;
    }

    /** `handleSelectFriend` */
    method SelectFriend(friend: ChatFriend)
      modifies this
      ensures selected == Some(friend)
      ensures friends == ClearUnread(old(friends), friend.id)
      ensures loadingFriends == old(loadingFriends)
    {
      selected := Some(friend);
      friends := ClearUnread(friends, friend.id);
    }

    /** Lines 75-90: a poll's result replaces the list; the first time, a `friendId` in
        the address selects that friend and clears their badge. */
    method FriendsLoaded(loaded: seq<ChatFriend>, friendIdParam: Option<string>)
      modifies this
      ensures !loadingFriends
      ensures if friendIdParam.Some? && friendIdParam.value != "" && old(selected).None? &&
                 FindFriend(loaded, friendIdParam.value).Some?
              then selected == Some(loaded[FindFriend(loaded, friendIdParam.value).value]) &&
                   friends == ClearUnread(loaded, friendIdParam.value)
              else selected == old(selected) && friends == loaded
    {
      friends := loaded;
      loadingFriends := false;
      if friendIdParam.Some? && friendIdParam.value != "" && selected.None? {
        var k := FindFriend(loaded, friendIdParam.value);
        if k.Some? {
          var friendToSelect := loaded[k.value];
          selected := Some(friendToSelect);
          friends := ClearUnread(friends, friendToSelect.id);
        }
      }
    }
  }

  /** Lines 315-327: the optimistic toggle on every message with that id. */
  function ReactLocally(messages: seq<Message>, messageId: Id, userId: Id, emoji: string): (r: seq<Message>)
    ensures |r| == |messages|
    ensures forall i :: 0 <= i < |r| && messages[i].id != messageId ==> r[i] == messages[i]
    ensures forall i :: 0 <= i < |r| && messages[i].id == messageId ==> r[i] == Reacted(messages[i], userId, emoji)
  {
    seq(|messages|, i requires 0 <= i < |messages| =>
      if messages[i].id == messageId then Reacted(messages[i], userId, emoji) else messages[i])
  }

  /** Lines 317-324, the body of the callback: copy the array (an absent one as empty),
      then splice out the first match or push a new entry onto the copy. */
  method ToggleCopy(reactions: Option<seq<Reaction>>, userId: Id, emoji: string)
    returns (newReactions: seq<Reaction>)
    ensures newReactions == Toggle(reactions.GetOr([]), userId, emoji)
  {
    var existingIdx: Option<int> := if reactions.Some? then Some(FindIndex(reactions.value, userId, emoji)) else None;
    newReactions := if reactions.Some? then reactions.value else [];
    ghost var i := FindIndex(reactions.GetOr([]), userId, emoji);
    assert newReactions == reactions.GetOr([]);
    assert existingIdx.Some? ==> existingIdx.value == i;
    assert reactions.None? ==> i == -1;
    if existingIdx.Some? && existingIdx.value > -1 {
      newReactions := newReactions[..existingIdx.value] + newReactions[existingIdx.value + 1..];
    } else {
      newReactions := newReactions + [Reaction(emoji, userId)];
    }
  }

  ghost predicate UniqueMessageIds(messages: seq<Message>) {
    forall i, j :: 0 <= i < j < |messages| ==> messages[i].id != messages[j].id
  }

  /** With distinct ids the page shows what the route stores: the same toggle on the same
      message, and nothing when the route finds no message. */
  lemma LocalAgreesWithRoute(messages: seq<Message>, messageId: Id, userId: Id, emoji: string)
    requires UniqueMessageIds(messages)
    ensures FindMessage(messages, messageId).None? ==> ReactLocally(messages, messageId, userId, emoji) == messages
    ensures FindMessage(messages, messageId).Some? ==>
              var i := FindMessage(messages, messageId).value;
              ReactLocally(messages, messageId, userId, emoji) == messages[i := Reacted(messages[i], userId, emoji)]
  {
  }

  function Emojis(rs: seq<Reaction>): (r: seq<string>)
    ensures |r| == |rs| && forall i :: 0 <= i < |rs| ==> r[i] == rs[i].emoji
  {
    seq(|rs|, i requires 0 <= i < |rs| => rs[i].emoji)
  }

  /** `Array.from(new Set(s))`: each value once, in order of first appearance. */
  function Dedup(s: seq<string>): seq<string> {
    if s == [] then []
    else
      var d := Dedup(s[..|s| - 1]);
      if s[|s| - 1] in d then d else d + [s[|s| - 1]]
  }

  function Is(x: string): string -> bool {
    (y: string) => y == x
  }

  /** Where `x` first appears in `s` (`|s|` when it does not). */
  function FirstPos(s: seq<string>, x: string): nat {
    match FirstIndex(s, Is(x))
    case None => |s|
    case Some(i) => i
  }

  /** `Dedup` keeps every value, once each, ordered by first appearance. */
  lemma DedupSpec(s: seq<string>)
    ensures forall x :: x in Dedup(s) <==> x in s
    ensures forall i, j :: 0 <= i < j < |Dedup(s)| ==> Dedup(s)[i] != Dedup(s)[j]
    ensures forall i, j :: 0 <= i < j < |Dedup(s)| ==> FirstPos(s, Dedup(s)[i]) < FirstPos(s, Dedup(s)[j])
  {
    DedupMembers(s);
    DedupFirstOrder(s);
    DedupDistinct(s);
  }

  lemma {:induction false} DedupMembers(s: seq<string>)
    ensures forall x :: x in Dedup(s) <==> x in s
  {
    if s != [] {
      DedupMembers(s[..|s| - 1]);
      assert s == s[..|s| - 1] + [s[|s| - 1]];
    }
  }

  lemma {:induction false} DedupDistinct(s: seq<string>)
    ensures forall i, j :: 0 <= i < j < |Dedup(s)| ==> Dedup(s)[i] != Dedup(s)[j]
  {
    if s != [] {
      DedupDistinct(s[..|s| - 1]);
    }
  }

  lemma {:induction false} DedupFirstOrder(s: seq<string>)
    ensures forall i, j :: 0 <= i < j < |Dedup(s)| ==> FirstPos(s, Dedup(s)[i]) < FirstPos(s, Dedup(s)[j])
  {
    if s != [] {
      var p := s[..|s| - 1];
      var x := s[|s| - 1];
      DedupFirstOrder(p);
      DedupMembers(p);
      DedupOrderStep(p, x);
      assert s == p + [x];
    }
  }

  /** Appending one value keeps the first-appearance order of the deduplicated list. */
  lemma DedupOrderStep(p: seq<string>, x: string)
    requires forall i, j :: 0 <= i < j < |Dedup(p)| ==> FirstPos(p, Dedup(p)[i]) < FirstPos(p, Dedup(p)[j])
    requires forall i :: 0 <= i < |Dedup(p)| ==> Dedup(p)[i] in p
    requires x in p ==> x in Dedup(p)
    ensures forall i, j :: 0 <= i < j < |Dedup(p + [x])| ==>
              FirstPos(p + [x], Dedup(p + [x])[i]) < FirstPos(p + [x], Dedup(p + [x])[j])
  {
    var s := p + [x];
    var d := Dedup(p);
    assert s[..|s| - 1] == p && s[|s| - 1] == x;
    var ds := Dedup(s);
    forall i, j | 0 <= i < j < |ds|
      ensures FirstPos(s, ds[i]) < FirstPos(s, ds[j])
    {
      assert ds[i] == d[i];
      FirstIndexPrefix(p, [x], Is(d[i]));
      if j < |d| {
        assert ds[j] == d[j];
        FirstIndexPrefix(p, [x], Is(d[j]));
      } else {
        assert ds[j] == x && x !in p;
        FirstIndexIs(s, Is(x), |p|);
      }
    }
  }

  function HasEmoji(emoji: string): Reaction -> bool {
    (r: Reaction) => r.emoji == emoji
  }

  /** A bubble: an emoji and how many reactions carry it. */
  datatype Bubble = Bubble(emoji: string, count: nat)

  /** Lines 412-418: the first three distinct emojis, each with its count. */
  function Bubbles(reactions: Option<seq<Reaction>>): seq<Bubble> {
    if reactions.None? || reactions.value == [] then []
    else
      var rs := reactions.value;
      var d := Dedup(Emojis(rs));
      var top := if |d| <= 3 then d else d[..3];
      seq(|top|, i requires 0 <= i < |top| => Bubble(top[i], Count(rs, HasEmoji(top[i]))))
  }

  /** The bubbles are the first (at most three) distinct emojis, each with its count. */
  lemma BubblesShape(rs: seq<Reaction>)
    requires rs != []
    ensures var d := Dedup(Emojis(rs));
            |Bubbles(Some(rs))| == (if |d| <= 3 then |d| else 3) &&
            forall i :: 0 <= i < |Bubbles(Some(rs))| ==>
              Bubbles(Some(rs))[i] == Bubble(d[i], Count(rs, HasEmoji(d[i])))
  {
  }

  /** At most three bubbles, for distinct emojis that occur, each with its count of at
      least one; with three or fewer distinct emojis every one has a bubble. */
  lemma BubblesSpec(reactions: Option<seq<Reaction>>)
    ensures |Bubbles(reactions)| <= 3
    ensures forall i, j :: 0 <= i < j < |Bubbles(reactions)| ==> Bubbles(reactions)[i].emoji != Bubbles(reactions)[j].emoji
    ensures forall i :: 0 <= i < |Bubbles(reactions)| ==>
              reactions.Some? &&
              Bubbles(reactions)[i].count == Count(reactions.value, HasEmoji(Bubbles(reactions)[i].emoji)) &&
              Bubbles(reactions)[i].count >= 1
    ensures reactions.Some? && |Dedup(Emojis(reactions.value))| <= 3 ==>
              forall k :: 0 <= k < |reactions.value| ==>
                exists i :: 0 <= i < |Bubbles(reactions)| && Bubbles(reactions)[i].emoji == reactions.value[k].emoji
  {
    if reactions.Some? && reactions.value != [] {
      var rs := reactions.value;
      DedupSpec(Emojis(rs));
      BubblesShape(rs);
      BubbleCountsPositive(rs);
      if |Dedup(Emojis(rs))| <= 3 {
        BubblesCoverAll(rs);
      }
    }
  }

  lemma BubbleCountsPositive(rs: seq<Reaction>)
    requires rs != []
    ensures forall i :: 0 <= i < |Bubbles(Some(rs))| ==> Bubbles(Some(rs))[i].count >= 1
  {
    var es := Emojis(rs);
    DedupSpec(es);
    var d := Dedup(es);
    var b := Bubbles(Some(rs));
    BubblesShape(rs);
    forall i | 0 <= i < |b|
      ensures b[i].count >= 1
    {
      assert d[i] in es;
      var k :| 0 <= k < |es| && es[k] == d[i];
      assert HasEmoji(d[i])(rs[k]);
    }
  }

  lemma BubblesCoverAll(rs: seq<Reaction>)
    requires rs != [] && |Dedup(Emojis(rs))| <= 3
    ensures forall k :: 0 <= k < |rs| ==>
              exists i :: 0 <= i < |Bubbles(Some(rs))| && Bubbles(Some(rs))[i].emoji == rs[k].emoji
  {
    var es := Emojis(rs);
    DedupSpec(es);
    var d := Dedup(es);
    var b := Bubbles(Some(rs));
    BubblesShape(rs);
    forall k | 0 <= k < |rs|
      ensures exists i :: 0 <= i < |b| && b[i].emoji == rs[k].emoji
    {
      assert es[k] in d;
      var i :| 0 <= i < |d| && d[i] == es[k];
      assert b[i].emoji == rs[k].emoji;
    }
  }

  /** What the send request ended in. */
  datatype SendOutcome = Delivered(message: Message) | NotOk | Threw

  /** The message panel of `ChatPanel`. */
  class ChatPanel {
    const currentUserId: Id
    var messages: seq<Message>
    var inputText: string
    var isSending: bool
    var showEmojiPicker: bool

    constructor (currentUserId: Id)
      ensures this.currentUserId == currentUserId
      ensures messages == [] && inputText == "" && !isSending && !showEmojiPicker
    {
      this.currentUserId := currentUserId;
      messages := [];
      inputText := "";
      isSending := false;
      showEmojiPicker := false;
    }

    /** `handleSend`: a blank box sends nothing; otherwise the box is emptied, the text
        posted as typed, a delivered message appended, and the text put back only when
        the request throws. Returns the content posted, if any. */
    method Send(outcome: SendOutcome) returns (posted: Option<string>)
      modifies this
      ensures Trim(old(inputText)) == "" ==>
                posted.None? && messages == old(messages) && inputText == old(inputText) &&
                isSending == old(isSending) && showEmojiPicker == old(showEmojiPicker)
      ensures Trim(old(inputText)) != "" ==>
                posted == Some(old(inputText)) && !isSending && !showEmojiPicker &&
                match outcome
                case Delivered(m) => messages == old(messages) + [m] && inputText == ""
                case NotOk => messages == old(messages) && inputText == ""
                case Threw => messages == old(messages) && inputText == old(inputText)
    {
      if Trim(inputText) == "" {
        return None;
      }
      var tempContent := inputText;
      inputText := "";
      showEmojiPicker := false;
      isSending := true;
      posted := Some(tempContent);
      match outcome {
        case Delivered(m) =>
          messages := messages + [m];
        case NotOk =>
        case Threw =>
          inputText := tempContent;
      }
      isSending := false;
    }

    /** `onEmojiClick` */
    method AddEmoji(emoji: string)
      modifies this
      ensures inputText == old(inputText) + emoji
      ensures messages == old(messages) && isSending == old(isSending) && showEmojiPicker == old(showEmojiPicker)
    {
      inputText := inputText + emoji;
    }

    /** `handleReaction`: toggle locally, then post `(messageId, emoji)` to the route. */
    method React(messageId: Id, emoji: string) returns (request: (Id, string))
      modifies this
      ensures messages == ReactLocally(old(messages), messageId, currentUserId, emoji)
      ensures request == (messageId, emoji)
      ensures inputText == old(inputText) && isSending == old(isSending) && showEmojiPicker == old(showEmojiPicker)
    {
      messages := ReactLocally(messages, messageId, currentUserId, emoji);
      request := (messageId, emoji);
    }
  }

  /** A blank or whitespace-only box never posts, whatever the request would do. */
  lemma BlankNeverSends(text: string)
    requires forall i :: 0 <= i < |text| ==> IsWhite(text[i])
    ensures Trim(text) == ""
  {
    TrimEmptyIffAllWhite(text);
  }
}
