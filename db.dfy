/** The database the core reads and writes, as one table per model. A row's
    position in its table is its id; rows are only ever appended, so a later
    position is a later `created_at`. The database hands out primary keys
    1, 2, 3, … in insertion order, so the row with primary key `pk` sits at
    position `pk - 1`: requests and replies speak primary keys, the tables
    refer to rows by position. */
module Db {
  import opened Common
  import opened UserModels
  import opened InterestModels
  import opened GroupModels
  import opened DialogModels

  datatype Tables = Tables(
    users: seq<User>,
    likes: seq<Like>,
    rejects: seq<Reject>,
    interests: seq<Interest>,
    ratings: seq<Rating>,
    groups: seq<Group>,
    members: seq<GroupMember>,
    messages: seq<Message>,
    dialogs: seq<Dialog>,
    notifications: seq<Notification>,
    pushes: seq<Push>)

  /** The primary key of the row at position `row`. */
  function Pk(row: nat): nat {
    row + 1
  }

  /** The position of the row with primary key `pk` in a table of `n` rows. */
  function Row(pk: int, n: nat): (r: Option<nat>)
    ensures r.Some? <==> 1 <= pk <= n
    ensures r.Some? ==> r.value < n && Pk(r.value) == pk
  {
    if 1 <= pk <= n then Some(pk - 1) else None
  }

  /** Vector dimensions hold and usernames are unique (AbstractUser). */
  predicate UsersOk(users: seq<User>) {
    (forall i :: 0 <= i < |users| ==> ValidUserRow(users[i]))
    && (forall i, j :: 0 <= i < j < |users| ==> users[i].username != users[j].username)
  }

  predicate LikesOk(likes: seq<Like>, nUsers: nat) {
    LikesUnique(likes)
    && forall i :: 0 <= i < |likes| ==> likes[i].user < nUsers && likes[i].likedUser < nUsers
  }

  predicate RejectsOk(rs: seq<Reject>, nUsers: nat) {
    RejectsUnique(rs)
    && forall i :: 0 <= i < |rs| ==> rs[i].user < nUsers && rs[i].rejectedUser < nUsers
  }

  predicate MessagesOk(ms: seq<Message>, nUsers: nat) {
    forall i :: 0 <= i < |ms| ==> ms[i].sender < nUsers
  }

  predicate DialogsOk(ds: seq<Dialog>, nUsers: nat, nMessages: nat, nGroups: nat) {
    (forall i, u :: 0 <= i < |ds| && u in ds[i].users ==> u < nUsers)
    && (forall i, m :: 0 <= i < |ds| && m in ds[i].messages ==> m < nMessages)
    && (forall i :: 0 <= i < |ds| && ds[i].group.Some? ==> ds[i].group.value < nGroups)
    && OneDirectDialogPerPair(ds)
    && OneChatPerGroup(ds)
  }

  predicate NotificationsOk(ns: seq<Notification>, nUsers: nat, nDialogs: nat) {
    forall i :: 0 <= i < |ns| ==> ns[i].user < nUsers && ns[i].dialog < nDialogs
  }

  /** The declared constraints (uniqueness, foreign keys, vector dimensions)
      together with the invariants the code keeps (one direct dialog per pair,
      one chat per group). */
  predicate ValidTables(t: Tables) {
    UsersOk(t.users)
    && LikesOk(t.likes, |t.users|)
    && RejectsOk(t.rejects, |t.users|)
    && CatalogueOk(t.interests)
    && RatingsOk(t.ratings, |t.users|, t.interests)
    && GroupNamesUnique(t.groups)
    && MembersOk(t.members, |t.users|, |t.groups|)
    && MessagesOk(t.messages, |t.users|)
    && DialogsOk(t.dialogs, |t.users|, |t.messages|, |t.groups|)
    && NotificationsOk(t.notifications, |t.users|, |t.dialogs|)
  }

  /** `Message.objects.create(sender, text)` followed by
      `dialog.messages.add(msg)`: the new message is the last row and is
      linked to dialog `d`. */
  function PostTo(t: Tables, d: nat, sender: UserId, text: string): Tables
    requires d < |t.dialogs|
  {
    var m := |t.messages|;
    t.(messages := t.messages + [Message(sender, text)],
       dialogs := t.dialogs[d := t.dialogs[d].(messages := t.dialogs[d].messages + {m})])
  }

  /** Posting leaves every table but the message ones as it was, appends
      exactly the new message and links it to dialog `d` alone. */
  lemma PostToFacts(t: Tables, d: nat, sender: UserId, text: string)
    requires d < |t.dialogs|
    ensures var t2 := PostTo(t, d, sender, text);
      && t2.messages == t.messages + [Message(sender, text)]
      && t2 == t.(messages := t2.messages, dialogs := t2.dialogs)
      && SameMembership(t.dialogs, t2.dialogs)
      && forall i :: 0 <= i < |t.dialogs| ==>
           t2.dialogs[i].messages == t.dialogs[i].messages + (if i == d then {|t.messages|} else {})
  {
  }

  /** A message from a known user keeps the tables valid. */
  lemma PostToKeepsValid(t: Tables, d: nat, sender: UserId, text: string)
    requires ValidTables(t) && d < |t.dialogs| && sender < |t.users|
    ensures ValidTables(PostTo(t, d, sender, text))
  {
    var t2 := PostTo(t, d, sender, text);
    PostToFacts(t, d, sender, text);
    SameMembershipKeepsInvariants(t.dialogs, t2.dialogs);
    assert MessagesOk(t2.messages, |t2.users|) by {
      forall i | 0 <= i < |t2.messages| ensures t2.messages[i].sender < |t2.users| {
        if i < |t.messages| {
          assert t2.messages[i] == t.messages[i];
        }
      }
    }
    assert DialogsOk(t2.dialogs, |t2.users|, |t2.messages|, |t2.groups|) by {
      forall i, m | 0 <= i < |t2.dialogs| && m in t2.dialogs[i].messages ensures m < |t2.messages| {
        if m != |t.messages| {
          assert m in t.dialogs[i].messages;
        }
      }
    }
  }

  /** The users of dialog `d` other than `me`, by primary key. */
  function OthersIn(t: Tables, d: nat, me: UserId): (r: seq<UserId>)
    requires d < |t.dialogs|
    ensures |r| <= |t.users|
  {
    Ascending(t.dialogs[d].users - {me}, |t.users|)
  }

  /** Only other stored users of the dialog are listed, each once, in
      increasing order. */
  lemma OthersFacts(t: Tables, d: nat, me: UserId)
    requires d < |t.dialogs|
    ensures forall k :: 0 <= k < |OthersIn(t, d, me)| ==>
      var u := OthersIn(t, d, me)[k]; u in t.dialogs[d].users && u != me && u < |t.users|
    ensures Increasing(OthersIn(t, d, me))
  {
    AscendingFacts(t.dialogs[d].users - {me}, |t.users|);
  }

  /** Every other stored user of the dialog is listed. */
  lemma OthersComplete(t: Tables, d: nat, me: UserId)
    requires d < |t.dialogs|
    ensures forall u: nat :: u in t.dialogs[d].users && u != me && u < |t.users| ==> u in OthersIn(t, d, me)
  {
    AscendingComplete(t.dialogs[d].users - {me}, |t.users|);
  }

  /** The member of `s` other than `me` with the smallest id in `i..n`. */
  function LeastOtherFrom(s: set<nat>, me: nat, n: nat, i: nat): (r: Option<nat>)
    decreases n - i
    ensures r.None? <==> forall u: nat :: i <= u < n && u in s ==> u == me
    ensures r.Some? ==> i <= r.value < n && r.value in s && r.value != me
    ensures r.Some? ==> forall u: nat :: i <= u < n && u in s && u != me ==> r.value <= u
  {
    if i >= n then None
    else if i in s && i != me then Some(i)
    else LeastOtherFrom(s, me, n, i + 1)
  }

  /** `dialog.list_users.exclude(id=me.id).first()`: the other user with the
      smallest primary key. */
  function FirstOther(t: Tables, d: nat, me: UserId): (r: Option<UserId>)
    requires d < |t.dialogs|
    ensures r.None? <==> forall u: nat :: u < |t.users| && u in t.dialogs[d].users ==> u == me
    ensures r.Some? ==> r.value in t.dialogs[d].users && r.value != me && r.value < |t.users|
    ensures r.Some? ==> forall u: nat :: u in t.dialogs[d].users && u != me && u < |t.users| ==> r.value <= u
  {
    LeastOtherFrom(t.dialogs[d].users, me, |t.users|, 0)
  }

  /** The live database. */
  class Store {
    var users: seq<User>
    var likes: seq<Like>
    var rejects: seq<Reject>
    var interests: seq<Interest>
    var ratings: seq<Rating>
    var groups: seq<Group>
    var members: seq<GroupMember>
    var messages: seq<Message>
    var dialogs: seq<Dialog>
    var notifications: seq<Notification>
    var pushes: seq<Push>

    function State(): Tables
      reads this
    {
      Tables(users, likes, rejects, interests, ratings, groups, members, messages, dialogs, notifications, pushes)
    }

    predicate Valid()
      reads this
    {
      ValidTables(State())
    }

    /** An empty database whose interest catalogue has been seeded. */
    constructor (catalogue: seq<Interest>)
      requires CatalogueOk(catalogue)
      ensures Valid()
      ensures State() == Tables([], [], [], catalogue, [], [], [], [], [], [], [])
    {
      users, likes, rejects, interests, ratings := [], [], [], catalogue, [];
      groups, members, messages, dialogs, notifications, pushes := [], [], [], [], [], [];
    }

    /** Replaces every table by those of `t`. */
    method Load(t: Tables)
      modifies this
      ensures State() == t
    {
      users, likes, rejects, interests, ratings := t.users, t.likes, t.rejects, t.interests, t.ratings;
      groups, members, messages, dialogs := t.groups, t.members, t.messages, t.dialogs;
      notifications, pushes := t.notifications, t.pushes;
    }
  }
}
