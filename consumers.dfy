/** The WebSocket consumers. `ChatConsumer` stores a message sent on a
    dialog's socket, adds the like a reply implies, broadcasts the message on
    the dialog's channel group and notifies the other participants;
    `NotifyConsumer` replays a user's unread notifications when they connect
    and marks them read. What a consumer sends to its own client is returned;
    what it sends to other clients is a push on a channel group. */
module Consumers {
  import opened Common
  import opened UserModels
  import opened GroupModels
  import opened DialogModels
  import opened Db
  import opened Views

  const NEW_MESSAGE: string := "Новое сообщение в чате «"
  const NOTICE_SEP: string := "»: "
  /** `msg.text[:50]` */
  const PREVIEW_LENGTH: nat := 50

  /** Every group chat names a stored group (`GroupChat.group` is a foreign
      key; one chat per group is kept by `get_or_create`, not declared). */
  predicate GroupsLinked(t: Tables) {
    forall i :: 0 <= i < |t.dialogs| && t.dialogs[i].group.Some? ==> t.dialogs[i].group.value < |t.groups|
  }

  // ---------------------------------------------------------------- chat title

  /** The title of a direct chat: the other user's full name, stripped, when
      either name is non-empty, otherwise the username. */
  function NameTitle(u: User): (r: string)
    ensures u.firstName == "" && u.lastName == "" ==> r == u.username
    ensures u.firstName != "" || u.lastName != "" ==> r == Strip(u.firstName + " " + u.lastName)
  {
    if u.firstName != "" || u.lastName != "" then Strip(u.firstName + " " + u.lastName) else u.username
  }

  /** `get_chat_title`: the group's name for a group chat, else the name of
      the other participant with the smallest id; `None` is the
      AttributeError raised when there is no other participant. */
  function Title(t: Tables, d: nat, me: UserId): (r: Option<string>)
    requires d < |t.dialogs| && GroupsLinked(t)
  {
    match t.dialogs[d].group
    case Some(g) => Some(t.groups[g].name)
    case None =>
      match FirstOther(t, d, me)
      case None => None
      case Some(o) => Some(NameTitle(t.users[o]))
  }

  /** The title exists exactly when the chat is a group chat or has a
      participant other than `me`. */
  lemma TitleExists(t: Tables, d: nat, me: UserId)
    requires d < |t.dialogs| && GroupsLinked(t)
    ensures Title(t, d, me).Some? <==> IsGroupChat(t.dialogs[d]) || OthersIn(t, d, me) != []
    ensures IsGroupChat(t.dialogs[d]) ==> Title(t, d, me) == Some(t.groups[t.dialogs[d].group.value].name)
  {
    var rs := OthersIn(t, d, me);
    OthersComplete(t, d, me);
    OthersFacts(t, d, me);
    if rs != [] {
      assert rs[0] in rs;
    }
  }

  /** A user whose first name is a lone space gets an empty title: the name
      is truthy, so there is no fallback to the username. */
  lemma BlankNameTitle(u: User)
    requires u.firstName == " " && u.lastName == ""
    ensures NameTitle(u) == ""
  {
    var s := u.firstName + " " + u.lastName;
    assert s == "  ";
    assert TrimLeft(s) == "" by {
      assert IsSpace(s[0]) && TrimLeft(s[1..]) == TrimLeft(" ");
    }
  }

  /** The notification text: `Новое сообщение в чате «<title>»: ` and at
      most the first 50 characters of the message. */
  function ChatNotice(title: string, text: string): (r: string)
    ensures var n := if |text| < PREVIEW_LENGTH then |text| else PREVIEW_LENGTH;
      && |r| == |NEW_MESSAGE| + |title| + |NOTICE_SEP| + n
      && r[..|NEW_MESSAGE|] == NEW_MESSAGE
      && r[|NEW_MESSAGE|..|NEW_MESSAGE| + |title|] == title
      && r[|r| - n..] == text[..n]
  {
    NEW_MESSAGE + title + NOTICE_SEP + Prefix(text, PREVIEW_LENGTH)
  }

  // ---------------------------------------------------------------- like on reply

  /** `_ensure_like_on_reply`: in a direct dialog of exactly two users, the
      first message the sender writes to the other counts as a like; if the
      other already liked the sender, both are told of the match, in id
      order. Group chats, dialogs of another size, a sender outside the
      dialog and an existing like change nothing. */
  function LikeOnReply(t: Tables, d: nat, s: UserId): Tables
    requires d < |t.dialogs|
  {
    if IsGroupChat(t.dialogs[d]) then t
    else
      var users := Ascending(t.dialogs[d].users, |t.users|);
      if |users| != 2 || (users[0] != s && users[1] != s) then t
      else
        var other := if users[0] == s then users[1] else users[0];
        if Like(s, other) in t.likes then t
        else
          var t1 := t.(likes := t.likes + [Like(s, other)]);
          if Like(other, s) in t1.likes then
            t1.(notifications := t1.notifications + Notices(users, d, MATCH_NOTICE),
                pushes := t1.pushes + Pushes(users, d, MATCH_PUSH))
          else t1
  }

  method EnsureLikeOnReply(db: Store, d: nat, s: UserId)
    requires d < |db.dialogs|
    modifies db
    ensures db.State() == LikeOnReply(old(db.State()), d, s)
  {
    if IsGroupChat(db.dialogs[d]) {
      return;
    }
    var users := Ascending(db.dialogs[d].users, |db.users|);
    if |users| != 2 || (users[0] != s && users[1] != s) {
      return;
    }
    var other := if users[0] == s then users[1] else users[0];
    if Like(s, other) in db.likes {
      return;
    }
    db.likes := db.likes + [Like(s, other)];
    if Like(other, s) in db.likes {
      Announce(db, users, d, MATCH_NOTICE, MATCH_PUSH);
    }
  }

  /** The participants of a two-user dialog, listed by id. */
  lemma PairListed(users: set<nat>, n: nat, a: nat, b: nat)
    requires users == {a, b} && a < b < n
    ensures Ascending(users, n) == [a, b]
  {
    var r := Ascending(users, n);
    AscendingComplete(users, n);
    AscendingFacts(users, n);
    assert forall x: nat :: x in r <==> x == a || x == b;
    SortedPair(r, a, b);
  }

  /** A strictly increasing sequence holding just `a < b` is `[a, b]`. */
  lemma SortedPair(r: seq<nat>, a: nat, b: nat)
    requires a < b
    requires forall x: nat :: x in r <==> x == a || x == b
    requires Increasing(r)
    ensures r == [a, b]
  {
    assert |r| == 2 by {
      assert Elems(r) == {a} + {b};
      assert Distinct(r);
      DistinctCard(r);
    }
    assert r[0] == a && r[1] == b by {
      assert r[0] in r && r[1] in r;
    }
  }

  /** A dialog listing two participants holds exactly those two. */
  lemma ListedPair(users: set<nat>, n: nat)
    requires forall u :: u in users ==> u < n
    requires |Ascending(users, n)| == 2
    ensures var r := Ascending(users, n); r[0] < r[1] && users == {r[0], r[1]}
  {
    var r := Ascending(users, n);
    AscendingComplete(users, n);
    AscendingFacts(users, n);
    assert r[0] in r && r[1] in r;
    forall u | u in users ensures u == r[0] || u == r[1] {
      assert u in r;
      var k :| 0 <= k < |r| && r[k] == u;
    }
  }

  /** In a direct dialog of `s` and one other user `o`, a reply records
      `s`'s like of `o` once, and announces a match, to both users in id
      order, exactly when the like is new and `o` already liked `s`. Only
      the likes, the notifications and the pushes change. */
  lemma ReplyLikes(t: Tables, d: nat, s: UserId, o: UserId)
    requires d < |t.dialogs| && !IsGroupChat(t.dialogs[d])
    requires t.dialogs[d].users == {s, o} && s != o && s < |t.users| && o < |t.users|
    ensures var t' := LikeOnReply(t, d, s);
      var pair := if s < o then [s, o] else [o, s];
      && t'.likes == AddLike(t.likes, s, o)
      && t' == t.(likes := t'.likes, notifications := t'.notifications, pushes := t'.pushes)
      && (Like(s, o) !in t.likes && Like(o, s) in t.likes ==>
            t'.notifications == t.notifications + Notices(pair, d, MATCH_NOTICE)
            && t'.pushes == t.pushes + Pushes(pair, d, MATCH_PUSH))
      && (Like(s, o) in t.likes || Like(o, s) !in t.likes ==>
            t'.notifications == t.notifications && t'.pushes == t.pushes)
  {
    if s < o {
      PairListed(t.dialogs[d].users, |t.users|, s, o);
    } else {
      assert t.dialogs[d].users == {o, s};
      PairListed(t.dialogs[d].users, |t.users|, o, s);
    }
  }

  /** A reply in a group chat, from outside the dialog, or in a dialog that
      does not hold exactly two users, changes nothing. */
  lemma ReplyIgnored(t: Tables, d: nat, s: UserId)
    requires d < |t.dialogs| && forall u :: u in t.dialogs[d].users ==> u < |t.users|
    ensures IsGroupChat(t.dialogs[d]) || s !in t.dialogs[d].users
            || !(exists o :: t.dialogs[d].users == {s, o} && o != s)
            ==> LikeOnReply(t, d, s) == t
  {
    var users := Ascending(t.dialogs[d].users, |t.users|);
    AscendingFacts(t.dialogs[d].users, |t.users|);
    if !IsGroupChat(t.dialogs[d]) && s in t.dialogs[d].users && |users| == 2 {
      ListedPair(t.dialogs[d].users, |t.users|);
      var o := if users[0] == s then users[1] else users[0];
      assert t.dialogs[d].users == {s, o} && o != s;
    }
  }

  /** A second reply adds nothing: the like is there after the first. */
  lemma ReplyIdempotent(t: Tables, d: nat, s: UserId)
    requires d < |t.dialogs|
    ensures LikeOnReply(LikeOnReply(t, d, s), d, s) == LikeOnReply(t, d, s)
  {
    var t1 := LikeOnReply(t, d, s);
    assert t1.dialogs == t.dialogs && t1.users == t.users;
    if !IsGroupChat(t.dialogs[d]) {
      var users := Ascending(t.dialogs[d].users, |t.users|);
      if |users| == 2 && (users[0] == s || users[1] == s) {
        var other := if users[0] == s then users[1] else users[0];
        assert Like(s, other) in t1.likes;
      }
    }
  }

  /** Notices about a stored dialog, for stored users, keep the
      notification rows in range. */
  lemma NoticesKeepOk(ns: seq<Notification>, uids: seq<UserId>, d: nat, text: string, nUsers: nat, nDialogs: nat)
    requires NotificationsOk(ns, nUsers, nDialogs) && d < nDialogs
    requires forall k :: 0 <= k < |uids| ==> uids[k] < nUsers
    ensures NotificationsOk(ns + Notices(uids, d, text), nUsers, nDialogs)
  {
    NoticesFacts(uids, d, text, text);
    var all := ns + Notices(uids, d, text);
    forall i | 0 <= i < |all| ensures all[i].user < nUsers && all[i].dialog < nDialogs {
      if i >= |ns| {
        assert all[i] == Notices(uids, d, text)[i - |ns|];
      }
    }
  }

  /** The like a reply adds keeps the tables valid. */
  lemma ReplyKeepsValid(t: Tables, d: nat, s: UserId, t': Tables)
    requires ValidTables(t) && d < |t.dialogs| && t' == LikeOnReply(t, d, s)
    ensures ValidTables(t')
  {
    if !IsGroupChat(t.dialogs[d]) {
      var users := Ascending(t.dialogs[d].users, |t.users|);
      if |users| == 2 && (users[0] == s || users[1] == s) {
        var other := if users[0] == s then users[1] else users[0];
        if Like(s, other) !in t.likes {
          var ls := t.likes + [Like(s, other)];
          AscendingFacts(t.dialogs[d].users, |t.users|);
          assert LikesOk(ls, |t.users|) by {
            forall i, j | 0 <= i < j < |ls| ensures ls[i] != ls[j] {
              if j == |t.likes| {
                assert ls[i] == t.likes[i];
              }
            }
          }
          NoticesKeepOk(t.notifications, users, d, MATCH_NOTICE, |t.users|, |t.dialogs|);
        }
      }
    }
  }

  // ---------------------------------------------------------------- receive_json

  /** The loop over `recipient_ids`: one notification and one push, both
      with the same text, for each participant other than the sender.
      Without another participant there is no title (direct chat) or no
      recipient (group chat), and nothing is added. */
  function NotifyRecipients(t: Tables, d: nat, s: UserId, text: string): Tables
    requires d < |t.dialogs| && GroupsLinked(t)
  {
    var rs := OthersIn(t, d, s);
    match Title(t, d, s)
    case None => t
    case Some(title) =>
      var notice := ChatNotice(title, text);
      t.(notifications := t.notifications + Notices(rs, d, notice), pushes := t.pushes + Pushes(rs, d, notice))
  }

  /** `create_message`, `_ensure_like_on_reply` and the broadcast for a
      dialog that exists, then the recipients' notices. */
  function Delivered(t: Tables, d: nat, s: UserId, text: string): Tables
    requires d < |t.dialogs| && GroupsLinked(t)
  {
    var t1 := LikeOnReply(PostTo(t, d, s, text), d, s);
    var t2 := t1.(pushes := t1.pushes + [Push(DialogChannel(d), ChatMessage(|t.messages|, s, text))]);
    NotifyRecipients(t2, d, s, text)
  }

  /** `ChatConsumer.receive_json` on the socket of the dialog with primary key
      `dialogPk`, for the connected user `sender` (`None` when anonymous) and
      the payload's `text` (`None` when the key is missing). A missing key
      and an anonymous sender fail before anything is stored. An unknown
      dialog fails after the message row was created, which is then left
      unlinked. There is no check that the sender takes part in the dialog. */
  function ReceiveSpec(t: Tables, dialogPk: int, sender: Option<UserId>, text: Option<string>): Tables
    requires GroupsLinked(t)
  {
    if text.None? || sender.None? then t
    else
      match Row(dialogPk, |t.dialogs|)
      case None => t.(messages := t.messages + [Message(sender.value, text.value)])
      case Some(d) => Delivered(t, d, sender.value, text.value)
  }

  /** `create_message`: the message row is created first; `None` is the
      DoesNotExist raised by the dialog lookup. */
  method CreateMessage(db: Store, dialogPk: int, s: UserId, text: string) returns (d: Option<nat>)
    modifies db
    ensures |db.dialogs| == |old(db.dialogs)|
    ensures d.Some? <==> 1 <= dialogPk <= |db.dialogs|
    ensures d.Some? ==> d.value == dialogPk - 1 && db.State() == PostTo(old(db.State()), d.value, s, text)
    ensures d.None? ==> db.State() == old(db.State()).(messages := old(db.messages) + [Message(s, text)])
  {
    db.messages := db.messages + [Message(s, text)];
    d := Row(dialogPk, |db.dialogs|);
    if d.Some? {
      var dd := d.value;
      db.dialogs := db.dialogs[dd := db.dialogs[dd].(messages := db.dialogs[dd].messages + {|db.messages| - 1})];
    }
  }

  method ChatTitle(db: Store, d: nat, me: UserId) returns (title: Option<string>)
    requires d < |db.dialogs| && GroupsLinked(db.State())
    ensures title == Title(db.State(), d, me)
  {
    var dialog := db.dialogs[d];
    if dialog.group.Some? {
      return Some(db.groups[dialog.group.value].name);
    }
    var other := FirstOther(db.State(), d, me);
    if other.None? {
      return None;
    }
    title := Some(NameTitle(db.users[other.value]));
  }

  method ReceiveJson(db: Store, dialogPk: int, sender: Option<UserId>, text: Option<string>)
    requires GroupsLinked(db.State())
    modifies db
    ensures db.State() == ReceiveSpec(old(db.State()), dialogPk, sender, text)
  {
    if text.None? || sender.None? {
      return;
    }
    var s, body := sender.value, text.value;
    var m := |db.messages|;
    var d := CreateMessage(db, dialogPk, s, body);
    if d.None? {
      return;
    }
    var dd := d.value;
    EnsureLikeOnReply(db, dd, s);
    db.pushes := db.pushes + [Push(DialogChannel(dd), ChatMessage(m, s, body))];
    NotifyAll(db, dd, s, body);
  }

  /** The notification part of `receive_json`: the title, then a notice and
      a push for each other participant. */
  method NotifyAll(db: Store, d: nat, s: UserId, text: string)
    requires d < |db.dialogs| && GroupsLinked(db.State())
    modifies db
    ensures db.State() == NotifyRecipients(old(db.State()), d, s, text)
  {
    var recipients := OthersIn(db.State(), d, s);
    var title := ChatTitle(db, d, s);
    if title.None? {
      return;
    }
    var notice := ChatNotice(title.value, text);
    Announce(db, recipients, d, notice, notice);
  }

  /** Without a text or an authenticated sender nothing happens. */
  lemma ReceiveRefused(t: Tables, dialogPk: int, sender: Option<UserId>, text: Option<string>)
    requires GroupsLinked(t) && (text.None? || sender.None?)
    ensures ReceiveSpec(t, dialogPk, sender, text) == t
  {
  }

  /** For an unknown dialog the message is stored all the same, at the end
      of the table, linked to no dialog, and nothing else happens. */
  lemma ReceiveOrphan(t: Tables, dialogPk: int, s: UserId, text: string)
    requires GroupsLinked(t) && !(1 <= dialogPk <= |t.dialogs|)
    requires forall i, m :: 0 <= i < |t.dialogs| && m in t.dialogs[i].messages ==> m < |t.messages|
    ensures var t' := ReceiveSpec(t, dialogPk, Some(s), Some(text));
      && t'.messages == t.messages + [Message(s, text)]
      && (forall i :: 0 <= i < |t'.dialogs| ==> |t.messages| !in t'.dialogs[i].messages)
      && t' == t.(messages := t'.messages)
  {
  }

  /** For a dialog that exists, the message is stored at the end of the
      table and linked to that dialog alone, whether or not the sender takes
      part in it; the participants stay the same. */
  lemma ReceiveStored(t: Tables, dialogPk: int, s: UserId, text: string)
    requires GroupsLinked(t) && 1 <= dialogPk <= |t.dialogs|
    ensures var t' := ReceiveSpec(t, dialogPk, Some(s), Some(text));
      && t'.messages == t.messages + [Message(s, text)]
      && SameMembership(t.dialogs, t'.dialogs)
      && forall i :: 0 <= i < |t.dialogs| ==>
           t'.dialogs[i].messages == t.dialogs[i].messages + (if i == dialogPk - 1 then {|t.messages|} else {})
  {
    var d := dialogPk - 1;
    var t0 := PostTo(t, d, s, text);
    PostToFacts(t, d, s, text);
    var t1 := LikeOnReply(t0, d, s);
    assert t1.messages == t0.messages && t1.dialogs == t0.dialogs;
  }

  /** The recipients' notices only add notifications and pushes, one of
      each per recipient, after the existing ones. */
  lemma RecipientsAppended(t: Tables, d: nat, s: UserId, text: string)
    requires d < |t.dialogs| && GroupsLinked(t)
    ensures var t' := NotifyRecipients(t, d, s, text);
      var n := |t.notifications|;
      && n <= |t'.notifications| && t'.notifications[..n] == t.notifications
      && |t'.pushes| == |t.pushes| + (|t'.notifications| - n) && t'.pushes[..|t.pushes|] == t.pushes
      && t' == t.(notifications := t'.notifications, pushes := t'.pushes)
      && (t'.notifications != t.notifications ==> Title(t, d, s).Some?)
  {
    var rs := OthersIn(t, d, s);
    if Title(t, d, s).Some? {
      var notice := ChatNotice(Title(t, d, s).value, text);
      NoticesFacts(rs, d, notice, notice);
    }
  }

  /** `added` goes to each member of `pool` other than `me` below `n`
      exactly once, in increasing id order, and to nobody else. */
  ghost predicate NotifiesExactly(added: seq<Notification>, pool: set<nat>, me: nat, n: nat) {
    && (forall u: nat :: (exists k :: 0 <= k < |added| && added[k].user == u) <==> u in pool && u != me && u < n)
    && (forall p, q :: 0 <= p < q < |added| ==> added[p].user < added[q].user)
  }

  /** Each participant other than the sender gets one unread notification
      and one push, in id order, carrying the chat's title and the start of
      the message; nobody else is notified. */
  lemma RecipientsNotified(t: Tables, d: nat, s: UserId, text: string)
    requires d < |t.dialogs| && GroupsLinked(t)
    ensures var t' := NotifyRecipients(t, d, s, text);
      && |t.notifications| <= |t'.notifications|
      && NotifiesExactly(t'.notifications[|t.notifications|..], t.dialogs[d].users, s, |t.users|)
  {
    var rs := OthersIn(t, d, s);
    OthersComplete(t, d, s);
    OthersFacts(t, d, s);
    TitleExists(t, d, s);
    RecipientsAppended(t, d, s, text);
    var t' := NotifyRecipients(t, d, s, text);
    var added := t'.notifications[|t.notifications|..];
    if Title(t, d, s).Some? {
      var notice := ChatNotice(Title(t, d, s).value, text);
      assert added == Notices(rs, d, notice);
      NoticedUsers(rs, d, notice, t.dialogs[d].users, s, |t.users|);
    } else {
      assert added == [] && rs == [];
      assert forall u: nat :: u in t.dialogs[d].users && u != s && u < |t.users| ==> u in rs;
    }
  }

  /** Notices for the members of `pool` other than `me` below `n`, listed
      in increasing order, go to exactly those users, in that order. */
  lemma NoticedUsers(rs: seq<UserId>, d: nat, notice: string, pool: set<nat>, me: nat, n: nat)
    requires forall k :: 0 <= k < |rs| ==> rs[k] in pool && rs[k] != me && rs[k] < n
    requires forall u: nat :: u in pool && u != me && u < n ==> u in rs
    requires Increasing(rs)
    ensures NotifiesExactly(Notices(rs, d, notice), pool, me, n)
  {
    var added := Notices(rs, d, notice);
    NoticesFacts(rs, d, notice, notice);
    forall u: nat ensures (exists k :: 0 <= k < |added| && added[k].user == u) <==> u in pool && u != me && u < n {
      if u in pool && u != me && u < n {
        var k :| 0 <= k < |rs| && rs[k] == u;
        assert added[k].user == u;
      }
    }
  }

  /** Every notice and push names the dialog and carries the chat's title
      and the start of the message. */
  lemma RecipientsNoticeText(t: Tables, d: nat, s: UserId, text: string, k: nat)
    requires d < |t.dialogs| && GroupsLinked(t)
    requires |t.notifications| + k < |NotifyRecipients(t, d, s, text).notifications|
    ensures var t' := NotifyRecipients(t, d, s, text);
      var n := t'.notifications[|t.notifications| + k];
      && Title(t, d, s).Some?
      && n == NewNotification(n.user, d, ChatNotice(Title(t, d, s).value, text))
      && |t.pushes| + k < |t'.pushes|
      && t'.pushes[|t.pushes| + k] == Push(UserChannel(n.user), Notify(d, ChatNotice(Title(t, d, s).value, text)))
  {
    var rs := OthersIn(t, d, s);
    var title := Title(t, d, s).value;
    var notice := ChatNotice(title, text);
    NoticesFacts(rs, d, notice, notice);
  }

  /** `after` is `before` followed by `p` and then possibly more. */
  predicate PushedNext(before: seq<Push>, after: seq<Push>, p: Push) {
    |before| < |after| && after[..|before|] == before && after[|before|] == p
  }

  /** The broadcast on the dialog's channel carries the new message's id,
      its sender and its text, and comes after what the reply's like
      announced and before the recipients' pushes. */
  lemma ReceiveBroadcast(t: Tables, dialogPk: int, s: UserId, text: string, t1: Tables, t': Tables)
    requires GroupsLinked(t) && 1 <= dialogPk <= |t.dialogs|
    requires t1 == LikeOnReply(PostTo(t, dialogPk - 1, s, text), dialogPk - 1, s)
    requires t' == ReceiveSpec(t, dialogPk, Some(s), Some(text))
    ensures PushedNext(t1.pushes, t'.pushes, Push(DialogChannel(dialogPk - 1), ChatMessage(|t.messages|, s, text)))
  {
    var d := dialogPk - 1;
    var p := Push(DialogChannel(d), ChatMessage(|t.messages|, s, text));
    LikeOnReplyFrame(PostTo(t, d, s, text), d, s, t1);
    assert t' == NotifyRecipients(t1.(pushes := t1.pushes + [p]), d, s, text);
    NotifyAfterBroadcast(t1, d, s, text, p, t');
  }

  /** The like a reply adds changes neither the dialogs nor the groups. */
  lemma LikeOnReplyFrame(t: Tables, d: nat, s: UserId, t1: Tables)
    requires d < |t.dialogs| && t1 == LikeOnReply(t, d, s)
    ensures t1.dialogs == t.dialogs && t1.groups == t.groups && t1.users == t.users
  {
  }

  /** The recipients' pushes come after a broadcast pushed just before them. */
  lemma NotifyAfterBroadcast(t1: Tables, d: nat, s: UserId, text: string, p: Push, t': Tables)
    requires d < |t1.dialogs| && GroupsLinked(t1)
    requires t' == NotifyRecipients(t1.(pushes := t1.pushes + [p]), d, s, text)
    ensures PushedNext(t1.pushes, t'.pushes, p)
  {
    var t2 := t1.(pushes := t1.pushes + [p]);
    RecipientsAppended(t2, d, s, text);
    PushedNextOf(t1.pushes, t'.pushes, p);
  }

  lemma PushedNextOf(before: seq<Push>, after: seq<Push>, p: Push)
    requires |before| + 1 <= |after| && after[..|before| + 1] == before + [p]
    ensures PushedNext(before, after, p)
  {
    assert after[..|before|] == (after[..|before| + 1])[..|before|];
  }

  /** A message from a stored user keeps the tables valid. */
  lemma ReceiveKeepsValid(t: Tables, dialogPk: int, sender: Option<UserId>, text: Option<string>)
    requires ValidTables(t) && (sender.Some? ==> sender.value < |t.users|)
    ensures GroupsLinked(t) && ValidTables(ReceiveSpec(t, dialogPk, sender, text))
  {
    if text.Some? && sender.Some? {
      var s := sender.value;
      if 1 <= dialogPk <= |t.dialogs| {
        DeliveredKeepsValid(t, dialogPk - 1, s, text.value, ReceiveSpec(t, dialogPk, sender, text));
      } else {
        var t' := t.(messages := t.messages + [Message(s, text.value)]);
        assert MessagesOk(t'.messages, |t'.users|) by {
          forall i | 0 <= i < |t'.messages| ensures t'.messages[i].sender < |t.users| {
            if i < |t.messages| {
              assert t'.messages[i] == t.messages[i];
            }
          }
        }
        assert ReceiveSpec(t, dialogPk, sender, text) == t';
      }
    }
  }

  lemma DeliveredKeepsValid(t: Tables, d: nat, s: UserId, text: string, t': Tables)
    requires ValidTables(t) && d < |t.dialogs| && s < |t.users| && t' == Delivered(t, d, s, text)
    ensures ValidTables(t')
  {
    PostToKeepsValid(t, d, s, text);
    var t0 := PostTo(t, d, s, text);
    var t1 := LikeOnReply(t0, d, s);
    ReplyKeepsValid(t0, d, s, t1);
    var t2 := t1.(pushes := t1.pushes + [Push(DialogChannel(d), ChatMessage(|t.messages|, s, text))]);
    assert ValidTables(t2);
    RecipientsKeepValid(t2, d, s, text, t');
  }

  lemma RecipientsKeepValid(t: Tables, d: nat, s: UserId, text: string, t': Tables)
    requires ValidTables(t) && d < |t.dialogs| && t' == NotifyRecipients(t, d, s, text)
    ensures ValidTables(t')
  {
    match Title(t, d, s)
    case None =>
    case Some(title) =>
      var rs := OthersIn(t, d, s);
      var notice := ChatNotice(title, text);
      OthersFacts(t, d, s);
      NoticesKeepOk(t.notifications, rs, d, notice, |t.users|, |t.dialogs|);
      assert t' == t.(notifications := t.notifications + Notices(rs, d, notice), pushes := t.pushes + Pushes(rs, d, notice));
  }

  // ---------------------------------------------------------------- NotifyConsumer

  /** A replayed notification: `dialog` is the dialog's id as a string,
      `from` the id of the dialog's other participant with the smallest id. */
  datatype Payload = Payload(dialog: string, text: string, from: Option<nat>, id: nat)

  /** The unread notifications of `u`, newest first (`ordering = ['-created_at']`). */
  function UnreadOf(ns: seq<Notification>, u: UserId): (r: seq<nat>)
    ensures forall k :: 0 <= k < |r| ==> r[k] < |ns|
  {
    if ns == [] then []
    else
      var last := |ns| - 1;
      (if ns[last].user == u && !ns[last].read then [last] else []) + UnreadOf(ns[..last], u)
  }

  /** The unread list holds exactly the unread notifications of `u`. */
  lemma {:induction false} UnreadOfMembers(ns: seq<Notification>, u: UserId)
    ensures forall i: nat :: i in UnreadOf(ns, u) <==> i < |ns| && ns[i].user == u && !ns[i].read
  {
    if ns != [] {
      var last := |ns| - 1;
      var init := ns[..last];
      UnreadOfMembers(init, u);
      assert forall i :: 0 <= i < last ==> init[i] == ns[i];
    }
  }

  /** Each element is larger than the ones after it. */
  predicate Descending(r: seq<nat>) {
    forall p, q :: 0 <= p < q < |r| ==> r[p] > r[q]
  }

  /** The unread list is newest first, so it names each notification once. */
  lemma {:induction false} UnreadOfNewestFirst(ns: seq<Notification>, u: UserId)
    ensures Descending(UnreadOf(ns, u))
  {
    if ns != [] {
      var last := |ns| - 1;
      var init := ns[..last];
      UnreadOfNewestFirst(init, u);
      var rest := UnreadOf(init, u);
      var head: seq<nat> := if ns[last].user == u && !ns[last].read then [last] else [];
      var r := UnreadOf(ns, u);
      assert r == head + rest;
      assert Descending(rest);
      forall p, q | 0 <= p < q < |r| ensures r[p] > r[q] {
        assert r[q] == rest[q - |head|];
        if p >= |head| {
          assert r[p] == rest[p - |head|];
          assert rest[p - |head|] > rest[q - |head|];
        } else {
          assert head == [last] && r[p] == last;
          assert rest[q - 1] < |init|;
        }
      }
    }
  }

  /** Nothing is listed exactly when `u` has no unread notification. */
  lemma {:induction false} UnreadOfEmpty(ns: seq<Notification>, u: UserId)
    ensures UnreadOf(ns, u) == [] <==> forall i :: 0 <= i < |ns| ==> ns[i].user != u || ns[i].read
  {
    if ns != [] {
      var last := |ns| - 1;
      var init := ns[..last];
      UnreadOfEmpty(init, u);
      assert forall i :: 0 <= i < last ==> init[i] == ns[i];
    }
  }

  /** Both facts, and each listed notification is an unread one of `u`. */
  lemma UnreadOfFacts(ns: seq<Notification>, u: UserId)
    ensures var r := UnreadOf(ns, u);
      && (forall i: nat :: i in r <==> i < |ns| && ns[i].user == u && !ns[i].read)
      && (forall k :: 0 <= k < |r| ==> ns[r[k]].user == u && !ns[r[k]].read)
      && (forall p, q :: 0 <= p < q < |r| ==> r[p] > r[q])
  {
    var r := UnreadOf(ns, u);
    UnreadOfMembers(ns, u);
    UnreadOfNewestFirst(ns, u);
    assert forall k :: 0 <= k < |r| ==> r[k] in r;
  }

  /** The payload built for the notification at position `i`. */
  function PayloadOf(t: Tables, i: nat, u: UserId): Payload
    requires i < |t.notifications| && t.notifications[i].dialog < |t.dialogs|
  {
    var n := t.notifications[i];
    var other := FirstOther(t, n.dialog, u);
    Payload(NatToString(Pk(n.dialog)), n.text, if other.Some? then Some(Pk(other.value)) else None, Pk(i))
  }

  /** `fetch_unread_payloads`: one payload per unread notification of `u`,
      newest first. */
  function Payloads(t: Tables, u: UserId): seq<Payload>
    requires NotificationsOk(t.notifications, |t.users|, |t.dialogs|)
  {
    var ids := UnreadOf(t.notifications, u);
    seq(|ids|, k requires 0 <= k < |ids| => PayloadOf(t, ids[k], u))
  }

  /** A notification after `_mark_read`, if it is one of `u`'s. */
  function Marked(n: Notification, u: UserId): Notification {
    if n.user == u then n.(read := true) else n
  }

  /** Every notification of `u` marked read. */
  function ReadAll(ns: seq<Notification>, u: UserId): (r: seq<Notification>)
    ensures |r| == |ns|
  {
    seq(|ns|, i requires 0 <= i < |ns| => Marked(ns[i], u))
  }

  /** The notifications with the rows `ids` marked read, one after the other. */
  function MarkRows(ns: seq<Notification>, ids: seq<nat>): (r: seq<Notification>)
    requires forall k :: 0 <= k < |ids| ==> ids[k] < |ns|
    ensures |r| == |ns|
  {
    if ids == [] then ns
    else
      var init := MarkRows(ns, ids[..|ids| - 1]);
      var j := ids[|ids| - 1];
      init[j := init[j].(read := true)]
  }

  /** A row is marked read exactly when it is one of `ids`. */
  lemma {:induction false} MarkRowsAt(ns: seq<Notification>, ids: seq<nat>, j: nat)
    requires forall k :: 0 <= k < |ids| ==> ids[k] < |ns|
    requires j < |ns|
    ensures MarkRows(ns, ids)[j] == if j in ids then ns[j].(read := true) else ns[j]
  {
    if ids != [] {
      var init := ids[..|ids| - 1];
      MarkRowsAt(ns, init, j);
      assert ids == init + [ids[|ids| - 1]];
    }
  }

  /** Marking the unread rows of `u` one by one marks all of `u`'s rows read. */
  lemma MarkUnreadIsReadAll(ns: seq<Notification>, u: UserId)
    ensures MarkRows(ns, UnreadOf(ns, u)) == ReadAll(ns, u)
  {
    var ids := UnreadOf(ns, u);
    UnreadOfFacts(ns, u);
    forall j | 0 <= j < |ns| ensures MarkRows(ns, ids)[j] == ReadAll(ns, u)[j] {
      MarkRowsAt(ns, ids, j);
      if ns[j].user == u && ns[j].read {
        assert ns[j].(read := true) == ns[j];
      }
    }
  }

  method FetchUnreadPayloads(db: Store, u: UserId) returns (ps: seq<Payload>)
    requires NotificationsOk(db.notifications, |db.users|, |db.dialogs|)
    ensures ps == Payloads(db.State(), u)
  {
    var t := db.State();
    var ids := UnreadOf(t.notifications, u);
    ghost var all := Payloads(t, u);
    ps := [];
    var i := 0;
    while i < |ids|
      invariant 0 <= i <= |ids| == |all|
      invariant ps == all[..i]
    {
      assert all[i] == PayloadOf(t, ids[i], u);
      assert all[..i + 1] == all[..i] + [all[i]];
      ps := ps + [PayloadOf(t, ids[i], u)];
      i := i + 1;
    }
    assert all[..i] == all;
  }

  /** The loop of `NotifyConsumer.connect`: each payload is sent and the
      notification it names (row `ids[k]`) is marked read, in order. */
  method SendAndMark(db: Store, payloads: seq<Payload>, ghost ids: seq<nat>) returns (sent: seq<Payload>)
    requires |payloads| == |ids|
    requires forall k :: 0 <= k < |ids| ==> ids[k] < |db.notifications| && payloads[k].id == Pk(ids[k])
    modifies db
    ensures sent == payloads
    ensures db.State() == old(db.State()).(notifications := MarkRows(old(db.notifications), ids))
  {
    sent := [];
    var i := 0;
    while i < |payloads|
      invariant 0 <= i <= |payloads|
      invariant sent == payloads[..i]
      invariant db.State() == old(db.State()).(notifications := MarkRows(old(db.notifications), ids[..i]))
    {
      sent := sent + [payloads[i]];
      var row := Row(payloads[i].id, |db.notifications|);
      assert row == Some(ids[i]);
      var j := row.value;
      db.notifications := db.notifications[j := db.notifications[j].(read := true)];
      assert ids[..i + 1][..i] == ids[..i];
      i := i + 1;
    }
    assert ids[..i] == ids;
    assert payloads[..i] == payloads;
  }

  /** `NotifyConsumer.connect`: an anonymous user is turned away; otherwise
      each unread notification of the user is sent, newest first, and then
      marked read. Returns what was sent to the client. */
  method NotifyConnect(db: Store, user: Option<UserId>) returns (sent: seq<Payload>)
    requires NotificationsOk(db.notifications, |db.users|, |db.dialogs|)
    modifies db
    ensures user.None? ==> sent == [] && db.State() == old(db.State())
    ensures user.Some? ==> sent == Payloads(old(db.State()), user.value)
    ensures user.Some? ==> db.State() == old(db.State()).(notifications := ReadAll(old(db.notifications), user.value))
  {
    if user.None? {
      return [];
    }
    var u := user.value;
    var payloads := FetchUnreadPayloads(db, u);
    ghost var ids := UnreadOf(db.notifications, u);
    MarkUnreadIsReadAll(db.notifications, u);
    sent := SendAndMark(db, payloads, ids);
  }

  /** Exactly the unread notifications of `u` are replayed, each once, newest first. */
  lemma ReplayedExactly(t: Tables, u: UserId)
    requires NotificationsOk(t.notifications, |t.users|, |t.dialogs|)
    ensures var ps := Payloads(t, u);
      && (forall i: nat :: (exists k :: 0 <= k < |ps| && ps[k].id == Pk(i))
                             <==> i < |t.notifications| && t.notifications[i].user == u && !t.notifications[i].read)
      && (forall p, q :: 0 <= p < q < |ps| ==> ps[p].id > ps[q].id)
  {
    var ids := UnreadOf(t.notifications, u);
    var ps := Payloads(t, u);
    assert forall k :: 0 <= k < |ps| ==> ps[k].id == Pk(ids[k]);
    UnreadOfMembers(t.notifications, u);
    UnreadOfNewestFirst(t.notifications, u);
    IdsListed(ps, ids);
  }

  /** Payloads carrying the keys of the rows `ids` name exactly those rows. */
  lemma IdsListed(ps: seq<Payload>, ids: seq<nat>)
    requires |ps| == |ids| && forall k :: 0 <= k < |ps| ==> ps[k].id == Pk(ids[k])
    ensures forall i: nat :: (exists k :: 0 <= k < |ps| && ps[k].id == Pk(i)) <==> i in ids
  {
    forall i: nat ensures (exists k :: 0 <= k < |ps| && ps[k].id == Pk(i)) <==> i in ids {
      if i in ids {
        var k :| 0 <= k < |ids| && ids[k] == i;
        assert ps[k].id == Pk(i);
      }
    }
  }

  /** The sender named in a payload is another participant of its dialog. */
  lemma PayloadFrom(t: Tables, u: UserId, k: nat)
    requires NotificationsOk(t.notifications, |t.users|, |t.dialogs|)
    requires k < |UnreadOf(t.notifications, u)|
    ensures var i := UnreadOf(t.notifications, u)[k]; var d := t.notifications[i].dialog; var p := Payloads(t, u)[k];
      && (p.from.Some? <==> exists o: nat :: o < |t.users| && o in t.dialogs[d].users && o != u)
      && (p.from.Some? ==> 1 <= p.from.value <= |t.users| && p.from.value - 1 in t.dialogs[d].users && p.from.value - 1 != u)
  {
    var ids := UnreadOf(t.notifications, u);
    var d := t.notifications[ids[k]].dialog;
    if exists o: nat :: o < |t.users| && o in t.dialogs[d].users && o != u {
      var o: nat :| o < |t.users| && o in t.dialogs[d].users && o != u;
      assert FirstOther(t, d, u).Some?;
    }
  }

  /** After the replay nothing of `u` is unread, every other notification is
      as it was, and a second connection replays nothing. */
  lemma ReadAllFacts(t: Tables, u: UserId)
    requires NotificationsOk(t.notifications, |t.users|, |t.dialogs|)
    ensures var ns := ReadAll(t.notifications, u);
      && UnreadOf(ns, u) == []
      && (forall i :: 0 <= i < |ns| ==> ns[i] == t.notifications[i].(read := ns[i].read))
      && (forall i :: 0 <= i < |ns| && t.notifications[i].user != u ==> ns[i] == t.notifications[i])
      && Payloads(t.(notifications := ns), u) == []
  {
    var ns := ReadAll(t.notifications, u);
    UnreadOfEmpty(ns, u);
  }

  /** Marking read keeps the tables valid. */
  lemma ReadAllKeepsValid(t: Tables, u: UserId)
    requires ValidTables(t)
    ensures ValidTables(t.(notifications := ReadAll(t.notifications, u)))
  {
  }

}
