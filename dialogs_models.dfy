/** Conversations, messages, notifications, and the live events pushed to
    channel groups. */
module DialogModels {
  import opened Common
  import opened UserModels

  datatype Message = Message(sender: UserId, text: string)

  /** A conversation row. A group chat is a dialog that carries a group
      (`group == Some(g)`); its id is its position in the table. Messages are
      linked through a many-to-many table, so one message may be linked to
      several dialogs. */
  datatype Dialog = Dialog(users: set<UserId>, isActive: bool, messages: set<nat>, group: Option<nat>)

  /** `Dialog.objects.create()` followed by `list_users.set(users)`. */
  function NewDialog(users: set<UserId>): (d: Dialog)
    ensures d.users == users && d.isActive && d.messages == {} && !IsGroupChat(d)
  {
    Dialog(users, true, {}, None)
  }

  /** `GroupChat.objects.create(group=g)` followed by `list_users.set(users)`. */
  function NewGroupChat(g: nat, users: set<UserId>): (d: Dialog)
    ensures d.users == users && d.isActive && d.messages == {} && IsGroupChat(d) && d.group == Some(g)
  {
    Dialog(users, true, {}, Some(g))
  }

  /** A dialog counts as a group iff it has a group chat part. */
  predicate IsGroupChat(d: Dialog) {
    d.group.Some?
  }

  datatype Notification = Notification(user: UserId, dialog: nat, text: string, read: bool)

  /** A notification row as created: unread. */
  function NewNotification(u: UserId, d: nat, text: string): (n: Notification)
    ensures n.user == u && n.dialog == d && n.text == text && !n.read
  {
    Notification(u, d, text, false)
  }

  /** A channel-layer group: `user_<id>` or `dialog_<id>`. */
  datatype Channel = UserChannel(user: UserId) | DialogChannel(dialog: nat)

  /** The events sent on channel groups: `notify` with a payload, and `chat.message`. */
  datatype Event = Notify(dialog: nat, text: string) | ChatMessage(message: nat, sender: UserId, text: string)

  datatype Push = Push(channel: Channel, event: Event)

  /** The ids 0..n-1 newest first: the tables ordered by ['-created_at']. */
  function NewestFirst(n: nat): (r: seq<nat>)
    ensures |r| == n && forall k :: 0 <= k < n ==> r[k] == n - 1 - k
  {
    if n == 0 then [] else [n - 1] + NewestFirst(n - 1)
  }

  /** `d` is a direct (non-group) dialog that holds both `a` and `b`. */
  predicate DirectWith(d: Dialog, a: UserId, b: UserId) {
    !IsGroupChat(d) && a in d.users && b in d.users
  }

  /** The lookup `Dialog.objects.filter(groupchat__isnull=True)
      .filter(list_users=a).filter(list_users=b).first()`: the newest direct
      dialog holding both users, if any. */
  function FindDirect(ds: seq<Dialog>, a: UserId, b: UserId): (r: Option<nat>)
    ensures r.None? <==> forall k :: 0 <= k < |ds| ==> !DirectWith(ds[k], a, b)
    ensures r.Some? ==> r.value < |ds| && DirectWith(ds[r.value], a, b)
    ensures r.Some? ==> forall k :: r.value < k < |ds| ==> !DirectWith(ds[k], a, b)
  {
    if ds == [] then None
    else if DirectWith(ds[|ds| - 1], a, b) then Some(|ds| - 1)
    else FindDirect(ds[..|ds| - 1], a, b)
  }

  /** Direct dialogs are only created after `FindDirect` found none, so no
      two direct dialogs share a pair of distinct users. */
  predicate OneDirectDialogPerPair(ds: seq<Dialog>) {
    forall i, j, a, b :: 0 <= i < j < |ds| && a in ds[i].users && b in ds[i].users && a != b && !IsGroupChat(ds[i])
      ==> !DirectWith(ds[j], a, b)
  }

  /** At most one group chat per group (`GroupChat.objects.get_or_create(group=g)`
      relies on it). */
  predicate OneChatPerGroup(ds: seq<Dialog>) {
    forall i, j :: 0 <= i < j < |ds| && ds[i].group.Some? ==> ds[j].group != ds[i].group
  }

  /** The group chat of group `g`, if it has one (the oldest, should there be several). */
  function FindGroupChat(ds: seq<Dialog>, g: nat): (r: Option<nat>)
    ensures r.None? <==> forall k :: 0 <= k < |ds| ==> ds[k].group != Some(g)
    ensures r.Some? ==> r.value < |ds| && ds[r.value].group == Some(g)
  {
    if ds == [] then None
    else if ds[0].group == Some(g) then Some(0)
    else
      var r := FindGroupChat(ds[1..], g);
      if r.Some? then Some(r.value + 1) else None
  }

  /** `ds2` has the same dialogs as `ds`, with the same participants and
      group, whatever their linked messages. */
  predicate SameMembership(ds: seq<Dialog>, ds2: seq<Dialog>) {
    |ds2| == |ds| && forall i :: 0 <= i < |ds| ==> ds2[i].users == ds[i].users && ds2[i].group == ds[i].group
  }

  /** Linking messages leaves both dialog invariants as they were. */
  lemma SameMembershipKeepsInvariants(ds: seq<Dialog>, ds2: seq<Dialog>)
    requires SameMembership(ds, ds2) && OneDirectDialogPerPair(ds) && OneChatPerGroup(ds)
    ensures OneDirectDialogPerPair(ds2) && OneChatPerGroup(ds2)
  {
    forall i, j, a, b | 0 <= i < j < |ds2| && a in ds2[i].users && b in ds2[i].users && a != b && !IsGroupChat(ds2[i])
      ensures !DirectWith(ds2[j], a, b)
    {
      assert !DirectWith(ds[j], a, b);
    }
  }
}
