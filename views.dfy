/** The REST views: swiping, the interactions list, opening a direct dialog,
    posting and reading messages, the match list, and group update and
    member listing. Each request runs as the authenticated user `me`; ids in
    requests and replies are primary keys. */
module Views {
  import opened Common
  import opened UserModels
  import opened InterestModels
  import opened GroupModels
  import opened DialogModels
  import opened Db
  import opened InterestUtils
  import opened Find
  import opened Serializers

  // ---------------------------------------------------------------- match announcements

  const MATCH_NOTICE: string := "У вас новый матч! Откройте чат и поздоровайтесь 🙂"
  const MATCH_PUSH: string := "У вас новый матч! 💚"

  /** One unread notification about dialog `d` per user of `uids`, in that order. */
  function Notices(uids: seq<UserId>, d: nat, text: string): seq<Notification> {
    if uids == [] then []
    else Notices(uids[..|uids| - 1], d, text) + [NewNotification(uids[|uids| - 1], d, text)]
  }

  /** One `notify` push per user of `uids`, on their own channel, in that order. */
  function Pushes(uids: seq<UserId>, d: nat, text: string): seq<Push> {
    if uids == [] then []
    else Pushes(uids[..|uids| - 1], d, text) + [Push(UserChannel(uids[|uids| - 1]), Notify(d, text))]
  }

  /** Each user of `uids` gets exactly one unread notification about dialog
      `d` and one push on their own channel, and nobody else does. */
  lemma {:induction false} NoticesFacts(uids: seq<UserId>, d: nat, notice: string, push: string)
    ensures |Notices(uids, d, notice)| == |uids| && |Pushes(uids, d, push)| == |uids|
    ensures forall k :: 0 <= k < |uids| ==>
      Notices(uids, d, notice)[k] == NewNotification(uids[k], d, notice)
      && Pushes(uids, d, push)[k] == Push(UserChannel(uids[k]), Notify(d, push))
  {
    if uids != [] {
      NoticesFacts(uids[..|uids| - 1], d, notice, push);
    }
  }

  /** A `for uid in ...` loop that creates a notification and sends a push per user. */
  method Announce(db: Store, uids: seq<UserId>, d: nat, notice: string, push: string)
    modifies db
    ensures db.State() == old(db.State()).(notifications := old(db.notifications) + Notices(uids, d, notice),
                                           pushes := old(db.pushes) + Pushes(uids, d, push))
  {
    var i := 0;
    while i < |uids|
      invariant 0 <= i <= |uids|
      invariant db.State() == old(db.State()).(notifications := old(db.notifications) + Notices(uids[..i], d, notice),
                                               pushes := old(db.pushes) + Pushes(uids[..i], d, push))
    {
      assert uids[..i + 1][..i] == uids[..i];
      db.notifications := db.notifications + [NewNotification(uids[i], d, notice)];
      db.pushes := db.pushes + [Push(UserChannel(uids[i]), Notify(d, push))];
      i := i + 1;
    }
    assert uids[..i] == uids;
  }

  /** The direct dialog of a new match: the newest direct dialog holding
      both users, or else a new one announced to `a` and then `b`. */
  function OpenMatch(t: Tables, a: UserId, b: UserId): (Tables, nat) {
    match FindDirect(t.dialogs, a, b)
    case Some(d) => (t, d)
    case None =>
      var d := |t.dialogs|;
      (t.(dialogs := t.dialogs + [NewDialog({a, b})],
          notifications := t.notifications + Notices([a, b], d, MATCH_NOTICE),
          pushes := t.pushes + Pushes([a, b], d, MATCH_PUSH)), d)
  }

  method OpenMatchDialog(db: Store, a: UserId, b: UserId) returns (d: nat)
    modifies db
    ensures (db.State(), d) == OpenMatch(old(db.State()), a, b)
  {
    var found := FindDirect(db.dialogs, a, b);
    if found.Some? {
      return found.value;
    }
    d := |db.dialogs|;
    db.dialogs := db.dialogs + [NewDialog({a, b})];
    Announce(db, [a, b], d, MATCH_NOTICE, MATCH_PUSH);
  }

  /** Appending a new direct dialog of `a` and `b` when they had none keeps
      one direct dialog per pair, and notices about it keep the tables valid. */
  lemma NewDirectDialogKeepsValid(t: Tables, a: UserId, b: UserId, d: Dialog, ns: seq<Notification>)
    requires ValidTables(t) && a < |t.users| && b < |t.users|
    requires FindDirect(t.dialogs, a, b).None?
    requires !IsGroupChat(d) && d.users == {a, b} && forall m :: m in d.messages ==> m < |t.messages|
    requires forall k :: 0 <= k < |ns| ==> ns[k].user < |t.users| && ns[k].dialog <= |t.dialogs|
    ensures ValidTables(t.(dialogs := t.dialogs + [d], notifications := t.notifications + ns))
  {
    var ds := t.dialogs + [d];
    var n := |t.dialogs|;
    forall i, j, x, y | 0 <= i < j < |ds| && x in ds[i].users && y in ds[i].users && x != y && !IsGroupChat(ds[i])
      ensures !DirectWith(ds[j], x, y)
    {
      if j == n {
        assert ds[i] == t.dialogs[i] && !DirectWith(t.dialogs[i], a, b);
      }
    }
    var ns' := t.notifications + ns;
    forall k | 0 <= k < |ns'| ensures ns'[k].user < |t.users| && ns'[k].dialog < |ds| {
      if k >= |t.notifications| {
        assert ns'[k] == ns[k - |t.notifications|];
      }
    }
  }

  /** The dialog a match opens is a direct dialog of the pair. */
  lemma OpenMatchDirect(t: Tables, a: UserId, b: UserId)
    ensures var (t', d) := OpenMatch(t, a, b);
      d < |t'.dialogs| && DirectWith(t'.dialogs[d], a, b)
  {
    var (t', d) := OpenMatch(t, a, b);
    if FindDirect(t.dialogs, a, b).None? {
      assert t'.dialogs[d] == NewDialog({a, b});
    }
  }

  /** Opening a match dialog keeps the tables valid; afterwards a direct
      dialog of the pair exists and the lookup finds it. */
  lemma OpenMatchFacts(t: Tables, a: UserId, b: UserId)
    requires ValidTables(t) && a < |t.users| && b < |t.users|
    ensures var (t', d) := OpenMatch(t, a, b);
      && ValidTables(t')
      && d < |t'.dialogs| && DirectWith(t'.dialogs[d], a, b)
      && FindDirect(t'.dialogs, a, b) == Some(d)
      && t' == t.(dialogs := t'.dialogs, notifications := t'.notifications, pushes := t'.pushes)
  {
    if FindDirect(t.dialogs, a, b).None? {
      var d := |t.dialogs|;
      NoticesFacts([a, b], d, MATCH_NOTICE, MATCH_PUSH);
      NewDirectDialogKeepsValid(t, a, b, NewDialog({a, b}), Notices([a, b], d, MATCH_NOTICE));
    }
  }

  // ---------------------------------------------------------------- swipe

  const LIKE: string := "like"

  datatype SwipeReply =
    | TargetNotFound                               // 404
    | Swiped(mutual: bool, dialog: Option<nat>)    // 201 when mutual, else 200
    | SwipeFailed                                  // 500: a reason the column cannot hold

  function SwipeStatus(r: SwipeReply): nat {
    match r
    case TargetNotFound => 404
    case Swiped(mutual, _) => if mutual then 201 else 200
    case SwipeFailed => 500
  }

  /** `MatchViewSet.swipe`: a like is recorded once and, when the target
      likes `me` back, the pair's direct dialog is found or created; any
      other action is stored as a rejection reason without validation. */
  function SwipeSpec(t: Tables, me: UserId, targetPk: int, action: Option<string>): (Tables, SwipeReply) {
    match Row(targetPk, |t.users|)
    case None => (t, TargetNotFound)
    case Some(target) =>
      if action == Some(LIKE) then LikeSpec(t, me, target)
      else if action.None? || |action.value| > REASON_MAX_LENGTH then (t, SwipeFailed)
      else (t.(rejects := AddReject(t.rejects, me, target, action.value)), Swiped(false, None))
  }

  /** A like: recorded once, and mutual when the target likes `me` back. */
  function LikeSpec(t: Tables, me: UserId, target: UserId): (Tables, SwipeReply) {
    var t1 := t.(likes := AddLike(t.likes, me, target));
    if Like(target, me) in t1.likes then
      var (t2, d) := OpenMatch(t1, me, target);
      (t2, Swiped(true, Some(Pk(d))))
    else (t1, Swiped(false, None))
  }

  method Swipe(db: Store, me: UserId, targetPk: int, action: Option<string>) returns (reply: SwipeReply)
    modifies db
    ensures (db.State(), reply) == SwipeSpec(old(db.State()), me, targetPk, action)
  {
    var row := Row(targetPk, |db.users|);
    if row.None? {
      return TargetNotFound;
    }
    var target := row.value;
    if action == Some(LIKE) {
      db.likes := AddLike(db.likes, me, target);
      if Like(target, me) in db.likes {
        var d := OpenMatchDialog(db, me, target);
        return Swiped(true, Some(Pk(d)));
      }
      return Swiped(false, None);
    }
    if action.None? || |action.value| > REASON_MAX_LENGTH {
      return SwipeFailed;
    }
    db.rejects := AddReject(db.rejects, me, target, action.value);
    reply := Swiped(false, None);
  }

  /** A get-or-create of a rejection keeps the rows unique and in range. */
  lemma AddRejectKeepsOk(rs: seq<Reject>, n: nat, a: UserId, b: UserId, reason: string)
    requires RejectsOk(rs, n) && a < n && b < n
    ensures RejectsOk(AddReject(rs, a, b, reason), n)
    ensures Reject(a, b, reason) in AddReject(rs, a, b, reason)
  {
    var r := AddReject(rs, a, b, reason);
    if Reject(a, b, reason) !in rs {
      forall i, j | 0 <= i < j < |r| ensures r[i] != r[j] {
        if j == |rs| { assert r[i] == rs[i]; }
      }
    }
  }

  /** A get-or-create of a like between known users keeps the tables valid. */
  lemma AddLikeKeepsValid(t: Tables, a: UserId, b: UserId)
    requires ValidTables(t) && a < |t.users| && b < |t.users|
    ensures ValidTables(t.(likes := AddLike(t.likes, a, b)))
  {
    AddLikeIdempotent(t.likes, a, b);
    var ls := AddLike(t.likes, a, b);
    forall i | 0 <= i < |ls| ensures ls[i].user < |t.users| && ls[i].likedUser < |t.users| {
      if i >= |t.likes| {
        assert ls[i] == Like(a, b);
      }
    }
  }

  /** A like keeps the tables valid, whether or not it opens a match. */
  lemma LikeKeepsValid(t: Tables, me: UserId, target: UserId, t': Tables)
    requires ValidTables(t) && me < |t.users| && target < |t.users|
    requires t' == LikeSpec(t, me, target).0
    ensures ValidTables(t')
  {
    AddLikeKeepsValid(t, me, target);
    var t1 := t.(likes := AddLike(t.likes, me, target));
    if Like(target, me) in t1.likes {
      OpenMatchFacts(t1, me, target);
    }
  }

  /** A stored rejection keeps the tables valid. */
  lemma RejectKeepsValid(t: Tables, me: UserId, target: UserId, reason: string, t': Tables)
    requires ValidTables(t) && me < |t.users| && target < |t.users|
    requires t' == t.(rejects := AddReject(t.rejects, me, target, reason))
    ensures ValidTables(t')
  {
    AddRejectKeepsOk(t.rejects, |t.users|, me, target, reason);
  }

  /** Every swipe keeps the tables valid. */
  lemma SwipeKeepsValid(t: Tables, me: UserId, targetPk: int, action: Option<string>)
    requires ValidTables(t) && me < |t.users|
    ensures ValidTables(SwipeSpec(t, me, targetPk, action).0)
  {
    var t' := SwipeSpec(t, me, targetPk, action).0;
    SwipeState(t, me, targetPk, action);
    if 1 <= targetPk <= |t.users| && action == Some(LIKE) {
      LikeKeepsValid(t, me, targetPk - 1, t');
    } else if 1 <= targetPk <= |t.users| && action.Some? && |action.value| <= REASON_MAX_LENGTH {
      RejectKeepsValid(t, me, targetPk - 1, action.value, t');
    }
  }

  /** The tables a swipe leaves: a like's, a stored rejection's, or the old ones. */
  lemma SwipeState(t: Tables, me: UserId, targetPk: int, action: Option<string>)
    ensures SwipeSpec(t, me, targetPk, action).0
      == if 1 <= targetPk <= |t.users| && action == Some(LIKE) then LikeSpec(t, me, targetPk - 1).0
         else if 1 <= targetPk <= |t.users| && action.Some? && |action.value| <= REASON_MAX_LENGTH
         then t.(rejects := AddReject(t.rejects, me, targetPk - 1, action.value))
         else t
  {
  }

  /** After a like exactly one like row holds the pair. */
  lemma SwipeLikeOnce(t: Tables, me: UserId, targetPk: int)
    requires LikesUnique(t.likes) && 1 <= targetPk <= |t.users|
    ensures CountLike(SwipeSpec(t, me, targetPk, Some(LIKE)).0.likes, Like(me, targetPk - 1)) == 1
  {
    var target := targetPk - 1;
    AddLikeIdempotent(t.likes, me, target);
    var t1 := t.(likes := AddLike(t.likes, me, target));
    if Like(target, me) in t1.likes {
      var t2 := OpenMatch(t1, me, target).0;
      assert t2.likes == t1.likes;
    }
  }

  /** A like is mutual exactly when the target already liked `me` (or `me`
      likes themself); the reply then names a direct dialog of the pair. */
  lemma SwipeMutualIff(t: Tables, me: UserId, targetPk: int)
    requires 1 <= targetPk <= |t.users|
    ensures var (t', r) := SwipeSpec(t, me, targetPk, Some(LIKE));
      && r.Swiped?
      && (r.mutual <==> Like(targetPk - 1, me) in t.likes || targetPk - 1 == me)
      && (r.mutual ==> r.dialog.Some? && 1 <= r.dialog.value <= |t'.dialogs|
                       && DirectWith(t'.dialogs[r.dialog.value - 1], me, targetPk - 1))
      && (!r.mutual ==> r.dialog.None? && SwipeStatus(r) == 200)
      && (r.mutual ==> SwipeStatus(r) == 201)
  {
    var target := targetPk - 1;
    var t1 := t.(likes := AddLike(t.likes, me, target));
    assert Like(target, me) in t1.likes <==> Like(target, me) in t.likes || target == me;
    OpenMatchDirect(t1, me, target);
  }

  /** A mutual like reuses the pair's direct dialog when there is one and
      then announces nothing; otherwise it creates the dialog for the pair
      and sends exactly two notifications and two pushes, one for each side. */
  lemma SwipeMatchNotices(t: Tables, me: UserId, targetPk: int)
    requires 1 <= targetPk <= |t.users|
    requires Like(targetPk - 1, me) in t.likes || targetPk - 1 == me
    ensures var (t', r) := SwipeSpec(t, me, targetPk, Some(LIKE));
      var found := FindDirect(t.dialogs, me, targetPk - 1);
      && (found.Some? ==> r.dialog == Some(Pk(found.value)) && t'.dialogs == t.dialogs
                          && t'.notifications == t.notifications && t'.pushes == t.pushes)
      && (found.None? ==>
            && r.dialog == Some(Pk(|t.dialogs|))
            && t'.dialogs == t.dialogs + [NewDialog({me, targetPk - 1})]
            && t'.notifications == t.notifications
                 + [NewNotification(me, |t.dialogs|, MATCH_NOTICE), NewNotification(targetPk - 1, |t.dialogs|, MATCH_NOTICE)]
            && |t'.pushes| == |t.pushes| + 2)
  {
    var target := targetPk - 1;
    var t1 := t.(likes := AddLike(t.likes, me, target));
    assert Like(target, me) in t1.likes;
    assert LikeSpec(t, me, target) == (OpenMatch(t1, me, target).0, Swiped(true, Some(Pk(OpenMatch(t1, me, target).1))));
    NoticesFacts([me, target], |t.dialogs|, MATCH_NOTICE, MATCH_PUSH);
  }

  /** Repeating a swipe returns the same reply and changes nothing more. */
  lemma SwipeIdempotent(t: Tables, me: UserId, targetPk: int, action: Option<string>)
    ensures var (t', r) := SwipeSpec(t, me, targetPk, action);
      SwipeSpec(t', me, targetPk, action) == (t', r)
  {
    if 1 <= targetPk <= |t.users| && action == Some(LIKE) {
      var target := targetPk - 1;
      var t1 := t.(likes := AddLike(t.likes, me, target));
      if Like(target, me) in t1.likes && FindDirect(t1.dialogs, me, target).None? {
        var t2 := OpenMatch(t1, me, target).0;
        assert DirectWith(t2.dialogs[|t2.dialogs| - 1], me, target);
      }
    }
  }

  /** Any action other than a like records that rejection and is never mutual;
      a missing target changes nothing. */
  lemma SwipeRejects(t: Tables, me: UserId, targetPk: int, action: string)
    requires ValidTables(t) && me < |t.users| && action != LIKE && |action| <= REASON_MAX_LENGTH
    ensures var (t', r) := SwipeSpec(t, me, targetPk, Some(action));
      && (1 <= targetPk <= |t.users| ==>
            r == Swiped(false, None) && Reject(me, targetPk - 1, action) in t'.rejects
            && t' == t.(rejects := t'.rejects))
      && (!(1 <= targetPk <= |t.users|) ==> r == TargetNotFound && SwipeStatus(r) == 404 && t' == t)
  {
    if 1 <= targetPk <= |t.users| {
      AddRejectKeepsOk(t.rejects, |t.users|, me, targetPk - 1, action);
    }
  }

  // ---------------------------------------------------------------- interactions

  /** The liked and the rejected users of `me`, a user shown for each row,
      who has no photo: `ShortUserSerializer` reads `profile_photo.url` of
      each unguarded. */
  ghost predicate ShownWithoutPhoto(t: Tables, me: UserId, u: nat) {
    u < |t.users| && !HasPhoto(t.users[u]) && (Like(me, u) in t.likes || exists reason :: Reject(me, u, reason) in t.rejects)
  }

  /** `InteractionsViewSet.list`: the users `me` liked and the users `me`
      rejected, by primary key, one entry per row; `None` is the 500 raised
      by a listed user without a photo. */
  function InteractionsList(t: Tables, me: UserId): (r: Option<(seq<nat>, seq<nat>)>)
    requires LikesOk(t.likes, |t.users|) && RejectsOk(t.rejects, |t.users|)
    ensures r.None? <==> exists u: nat :: ShownWithoutPhoto(t, me, u)
    ensures r.Some? ==> forall u: nat :: Pk(u) in r.value.0 <==> Like(me, u) in t.likes
    ensures r.Some? ==> forall u: nat :: Pk(u) in r.value.1 <==> exists reason :: Reject(me, u, reason) in t.rejects
    ensures r.Some? ==> |r.value.0| == |LikedBy(t.likes, me)| && |r.value.1| == |RejectedBy(t.rejects, me)|
  {
    var shown := LikedBy(t.likes, me) + RejectedBy(t.rejects, me);
    assert forall k :: 0 <= k < |shown| ==> shown[k] < |t.users| && (Like(me, shown[k]) in t.likes || exists reason :: Reject(me, shown[k], reason) in t.rejects) by {
      forall k | 0 <= k < |shown|
        ensures shown[k] < |t.users| && (Like(me, shown[k]) in t.likes || exists reason :: Reject(me, shown[k], reason) in t.rejects)
      {
        if k < |LikedBy(t.likes, me)| {
          assert shown[k] in LikedBy(t.likes, me);
          var i :| 0 <= i < |t.likes| && t.likes[i] == Like(me, shown[k]);
        } else {
          assert shown[k] in RejectedBy(t.rejects, me);
          var reason :| Reject(me, shown[k], reason) in t.rejects;
          var i :| 0 <= i < |t.rejects| && t.rejects[i] == Reject(me, shown[k], reason);
        }
      }
    }
    if exists k :: 0 <= k < |shown| && !HasPhoto(t.users[shown[k]]) then
      var k :| 0 <= k < |shown| && !HasPhoto(t.users[shown[k]]);
      assert ShownWithoutPhoto(t, me, shown[k]);
      None
    else
      assert forall u: nat :: ShownWithoutPhoto(t, me, u) ==> u in shown by {
        forall u: nat | ShownWithoutPhoto(t, me, u) ensures u in shown {
          if Like(me, u) in t.likes {
            assert u in LikedBy(t.likes, me);
          } else {
            assert u in RejectedBy(t.rejects, me);
          }
        }
      }
      Some(InteractionIds(t, me))
  }

  /** The primary keys of the users `me` liked and of those `me` rejected. */
  function InteractionIds(t: Tables, me: UserId): (r: (seq<nat>, seq<nat>))
    ensures forall u: nat :: Pk(u) in r.0 <==> Like(me, u) in t.likes
    ensures forall u: nat :: Pk(u) in r.1 <==> exists reason :: Reject(me, u, reason) in t.rejects
    ensures |r.0| == |LikedBy(t.likes, me)| && |r.1| == |RejectedBy(t.rejects, me)|
  {
    var liked := LikedBy(t.likes, me);
    var rejected := RejectedBy(t.rejects, me);
    var r := (seq(|liked|, k requires 0 <= k < |liked| => Pk(liked[k])),
              seq(|rejected|, k requires 0 <= k < |rejected| => Pk(rejected[k])));
    assert forall u: nat :: Pk(u) in r.0 <==> u in liked by {
      forall u: nat | Pk(u) in r.0 ensures u in liked {
        var k :| 0 <= k < |r.0| && r.0[k] == Pk(u);
        assert liked[k] == u;
      }
      forall u: nat | u in liked ensures Pk(u) in r.0 {
        var k :| 0 <= k < |liked| && liked[k] == u;
        assert r.0[k] == Pk(u);
      }
    }
    assert forall u: nat :: Pk(u) in r.1 <==> u in rejected by {
      forall u: nat | Pk(u) in r.1 ensures u in rejected {
        var k :| 0 <= k < |r.1| && r.1[k] == Pk(u);
        assert rejected[k] == u;
      }
      forall u: nat | u in rejected ensures Pk(u) in r.1 {
        var k :| 0 <= k < |rejected| && rejected[k] == u;
        assert r.1[k] == Pk(u);
      }
    }
    r
  }

  /** The rejections of `me` that a delete with this filter removes: all of
      them (`reset`), or those of one target given by primary key (`unreject`). */
  predicate Deleted(x: Reject, me: UserId, target: Option<int>) {
    x.user == me && (target.None? || Pk(x.rejectedUser) == target.value)
  }

  /** `Rejected.objects.filter(...).delete()`: the other rows, in order. */
  function DeleteRejects(rs: seq<Reject>, me: UserId, target: Option<int>): (r: seq<Reject>)
    ensures forall x :: x in r <==> x in rs && !Deleted(x, me, target)
    ensures |r| <= |rs|
  {
    if rs == [] then []
    else
      var rest := DeleteRejects(rs[..|rs| - 1], me, target);
      var last := rs[|rs| - 1];
      assert forall x :: x in rs <==> x in rs[..|rs| - 1] || x == last;
      if Deleted(last, me, target) then rest else rest + [last]
  }

  /** Deleting keeps the remaining rows unique. */
  lemma {:induction false} DeleteRejectsUnique(rs: seq<Reject>, me: UserId, target: Option<int>)
    requires RejectsUnique(rs)
    ensures RejectsUnique(DeleteRejects(rs, me, target))
  {
    if rs != [] {
      var init := rs[..|rs| - 1];
      assert RejectsUnique(init);
      DeleteRejectsUnique(init, me, target);
      var last := rs[|rs| - 1];
      assert last !in init;
    }
  }

  /** `InteractionsViewSet.reset`: every rejection by `me` is deleted. */
  function ResetSpec(t: Tables, me: UserId): Tables {
    t.(rejects := DeleteRejects(t.rejects, me, None))
  }

  /** `InteractionsViewSet.unreject`: `me`'s rejections of the user with
      primary key `id` are deleted, whatever their reason; an unknown id
      deletes nothing and still answers ok. */
  function UnrejectSpec(t: Tables, me: UserId, id: int): Tables {
    t.(rejects := DeleteRejects(t.rejects, me, Some(id)))
  }

  method Reset(db: Store, me: UserId)
    modifies db
    ensures db.State() == ResetSpec(old(db.State()), me)
  {
    db.rejects := DeleteRejects(db.rejects, me, None);
  }

  method Unreject(db: Store, me: UserId, id: int)
    modifies db
    ensures db.State() == UnrejectSpec(old(db.State()), me, id)
  {
    db.rejects := DeleteRejects(db.rejects, me, Some(id));
  }

  /** After `reset` `me` has rejected nobody, and every other user's
      rejections remain; after `unreject` only the rows for that one target
      are gone; both keep the tables valid. */
  lemma ResetAndUnrejectFacts(t: Tables, me: UserId, id: int)
    requires ValidTables(t)
    ensures ValidTables(ResetSpec(t, me)) && ValidTables(UnrejectSpec(t, me, id))
    ensures forall u: nat :: !RejectedAny(ResetSpec(t, me).rejects, me, u)
    ensures forall x :: x in t.rejects && x.user != me ==> x in ResetSpec(t, me).rejects
    ensures forall x :: x in UnrejectSpec(t, me, id).rejects <==>
      x in t.rejects && !(x.user == me && Pk(x.rejectedUser) == id)
  {
    DeleteRejectsUnique(t.rejects, me, None);
    DeleteRejectsUnique(t.rejects, me, Some(id));
    var r := ResetSpec(t, me).rejects;
    assert forall k :: 0 <= k < |r| ==> r[k].user != me by {
      forall k | 0 <= k < |r| ensures r[k].user != me {
        assert r[k] in r;
      }
    }
    var r2 := UnrejectSpec(t, me, id).rejects;
    assert forall k :: 0 <= k < |r2| ==> r2[k] in t.rejects;
    assert forall k :: 0 <= k < |r| ==> r[k] in t.rejects;
  }

  // ---------------------------------------------------------------- direct dialogs

  const DM_NOTICE: string := "Вам пришло личное сообщение от "
  const DM_PUSH: string := "Новое личное сообщение"

  datatype DialogReply =
    | PartnerRequired          // 400 'partner is required'
    | PartnerNotFound          // 404: no such user, or an inactive one
    | SelfDialog               // 400 'self'
    | DialogOpened(id: nat)    // 201
    | DialogRenderFailed       // 500: the partner shown has no photo

  /** The writes of a first contact: the dialog with `me`'s intro message,
      `me`'s like of the partner, the message broadcast, and a notification
      and a push for the partner. */
  function FirstContact(t: Tables, me: UserId, p: UserId, text: string): Tables
    requires me < |t.users|
  {
    var d := |t.dialogs|;
    var m := |t.messages|;
    t.(dialogs := t.dialogs + [NewDialog({me, p}).(messages := {m})],
       likes := AddLike(t.likes, me, p),
       messages := t.messages + [Message(me, text)],
       notifications := t.notifications + [NewNotification(p, d, DM_NOTICE + t.users[me].firstName + " " + t.users[me].lastName)],
       pushes := t.pushes + [Push(DialogChannel(d), ChatMessage(m, me, text)), Push(UserChannel(p), Notify(d, DM_PUSH))])
  }

  /** The answer once dialog `d` of `me` exists: `DialogSerializer`
      renders it, and raises when the partner it shows has no photo. */
  function DialogAnswer(t: Tables, d: nat, me: UserId): (r: DialogReply)
    requires d < |t.dialogs|
    ensures r == DialogRenderFailed <==> PartnerPhotoMissing(t, d, me)
    ensures r != DialogRenderFailed ==> r == DialogOpened(Pk(d))
  {
    if PartnerPhotoMissing(t, d, me) then DialogRenderFailed else DialogOpened(Pk(d))
  }

  /** `DialogViewSet.create`: `partner` is the request's partner id (`None`
      when absent; 0 is falsy like absence). An existing direct dialog of
      the pair is returned as it is; a first contact stores `intro` as
      `me`'s opening message. The writes are committed before the dialog
      is serialized, so they stay when that raises. */
  function OpenDialogSpec(t: Tables, me: UserId, partner: Option<int>, intro: string): (Tables, DialogReply)
    requires me < |t.users|
  {
    if partner.None? || partner.value == 0 then (t, PartnerRequired)
    else
      match Row(partner.value, |t.users|)
      case None => (t, PartnerNotFound)
      case Some(p) =>
        if !t.users[p].isActive then (t, PartnerNotFound)
        else if p == me then (t, SelfDialog)
        else
          match FindDirect(t.dialogs, me, p)
          case Some(d) => (t, DialogAnswer(t, d, me))
          case None =>
            var t' := FirstContact(t, me, p, intro);
            (t', DialogAnswer(t', |t.dialogs|, me))
  }

  /** `build_intro_message(me, partner)` for the requested partner. */
  function IntroFor(t: Tables, me: UserId, partner: Option<int>): string
    requires ValidTables(t) && me < |t.users|
  {
    if partner.Some? && 1 <= partner.value <= |t.users| then
      BuildIntroMessage(t.users[me], t.users[partner.value - 1], t.interests)
    else ""
  }

  function CreateDialogSpec(t: Tables, me: UserId, partner: Option<int>): (Tables, DialogReply)
    requires ValidTables(t) && me < |t.users|
  {
    OpenDialogSpec(t, me, partner, IntroFor(t, me, partner))
  }

  method CreateDialog(db: Store, me: UserId, partner: Option<int>) returns (reply: DialogReply)
    requires db.Valid() && me < |db.users|
    modifies db
    ensures (db.State(), reply) == CreateDialogSpec(old(db.State()), me, partner)
  {
    if partner.None? || partner.value == 0 {
      return PartnerRequired;
    }
    var row := Row(partner.value, |db.users|);
    if row.None? || !db.users[row.value].isActive {
      return PartnerNotFound;
    }
    var p := row.value;
    if p == me {
      return SelfDialog;
    }
    var found := FindDirect(db.dialogs, me, p);
    if found.Some? {
      return DialogAnswer(db.State(), found.value, me);
    }
    var text := IntroFor(db.State(), me, partner);
    var d := StartDialog(db, me, p, text);
    reply := DialogAnswer(db.State(), d, me);
  }

  /** The dialog, like, message, broadcast and notification of a first contact. */
  method StartDialog(db: Store, me: UserId, p: UserId, text: string) returns (d: nat)
    requires me < |db.users|
    modifies db
    ensures db.State() == FirstContact(old(db.State()), me, p, text) && d == |old(db.dialogs)|
  {
    d := |db.dialogs|;
    var sender := db.users[me];
    var m := |db.messages|;
    var dialog := NewDialog({me, p}).(messages := {m});
    var notice := NewNotification(p, d, DM_NOTICE + sender.firstName + " " + sender.lastName);
    var broadcast := Push(DialogChannel(d), ChatMessage(m, me, text));
    var alert := Push(UserChannel(p), Notify(d, DM_PUSH));
    db.dialogs, db.likes, db.messages := db.dialogs + [dialog], AddLike(db.likes, me, p), db.messages + [Message(me, text)];
    db.notifications, db.pushes := db.notifications + [notice], db.pushes + [broadcast, alert];
  }

  /** A first contact between two users without a direct dialog keeps the
      tables valid. */
  lemma FirstContactKeepsValid(t: Tables, me: UserId, p: UserId, text: string)
    requires ValidTables(t) && me < |t.users| && p < |t.users| && FindDirect(t.dialogs, me, p).None?
    ensures ValidTables(FirstContact(t, me, p, text))
  {
    var t' := FirstContact(t, me, p, text);
    var d := |t.dialogs|;
    var dlg := NewDialog({me, p}).(messages := {|t.messages|});
    AddLikeKeepsValid(t, me, p);
    var t0 := t.(likes := t'.likes);
    var t1 := t0.(messages := t'.messages);
    assert MessagesOk(t1.messages, |t.users|) by {
      forall i | 0 <= i < |t1.messages| ensures t1.messages[i].sender < |t.users| {
        if i < |t.messages| { assert t1.messages[i] == t.messages[i]; }
      }
    }
    assert ValidTables(t1);
    var ns := [NewNotification(p, d, DM_NOTICE + t.users[me].firstName + " " + t.users[me].lastName)];
    NewDirectDialogKeepsValid(t1, me, p, dlg, ns);
    assert t' == t1.(dialogs := t1.dialogs + [dlg], notifications := t1.notifications + ns, pushes := t'.pushes);
  }

  /** A first contact adds exactly the pair's dialog, holding only the new
      message from `me`, `me`'s like of the partner, and one notification,
      for the partner; the lookup then finds the new dialog. */
  lemma FirstContactFacts(t: Tables, me: UserId, p: UserId, text: string)
    requires LikesUnique(t.likes) && me < |t.users|
    ensures var t' := FirstContact(t, me, p, text);
      && t'.users == t.users
      && t'.dialogs == t.dialogs + [NewDialog({me, p}).(messages := {|t.messages|})]
      && t'.messages == t.messages + [Message(me, text)]
      && CountLike(t'.likes, Like(me, p)) == 1
      && |t'.notifications| == |t.notifications| + 1 && t'.notifications[|t.notifications|].user == p
      && FindDirect(t'.dialogs, me, p) == Some(|t.dialogs|)
  {
    var t' := FirstContact(t, me, p, text);
    AddLikeIdempotent(t.likes, me, p);
    assert DirectWith(t'.dialogs[|t.dialogs|], me, p);
  }

  /** Opening a dialog keeps the tables valid. */
  lemma CreateDialogKeepsValid(t: Tables, me: UserId, partner: Option<int>, intro: string)
    requires ValidTables(t) && me < |t.users|
    ensures ValidTables(OpenDialogSpec(t, me, partner, intro).0)
  {
    var t' := OpenDialogSpec(t, me, partner, intro).0;
    if partner.Some? && partner.value != 0 && 1 <= partner.value <= |t.users| {
      var p := partner.value - 1;
      if t.users[p].isActive && p != me && FindDirect(t.dialogs, me, p).None? {
        FirstContactKeepsValid(t, me, p, intro);
        assert t' == FirstContact(t, me, p, intro);
        return;
      }
    }
    assert t' == t;
  }

  /** When the answer is a dialog, that is a direct dialog of `me` and the
      partner whose shown partner has a photo. Only a first contact changes
      anything: it adds the pair's dialog holding one message, the intro
      from `me`, `me`'s like of the partner and one notification, for the
      partner, and then answers 500 exactly when the partner has no photo. */
  lemma CreateDialogFacts(t: Tables, me: UserId, partner: Option<int>, intro: string)
    requires LikesUnique(t.likes) && me < |t.users|
    ensures var (t', r) := OpenDialogSpec(t, me, partner, intro);
      && (!r.DialogOpened? && !r.DialogRenderFailed? ==> t' == t)
      && (r.DialogOpened? ==>
            && 1 <= r.id <= |t'.dialogs| && DirectWith(t'.dialogs[r.id - 1], me, partner.value - 1)
            && !PartnerPhotoMissing(t', r.id - 1, me))
      && (t' != t ==>
            && 1 <= partner.value <= |t.users|
            && r == (if HasPhoto(t.users[partner.value - 1]) then DialogOpened(Pk(|t.dialogs|)) else DialogRenderFailed)
            && t'.dialogs == t.dialogs + [NewDialog({me, partner.value - 1}).(messages := {|t.messages|})]
            && t'.messages == t.messages + [Message(me, intro)]
            && CountLike(t'.likes, Like(me, partner.value - 1)) == 1
            && |t'.notifications| == |t.notifications| + 1 && t'.notifications[|t.notifications|].user == partner.value - 1)
  {
    if partner.Some? && partner.value != 0 && 1 <= partner.value <= |t.users| {
      var p := partner.value - 1;
      if t.users[p].isActive && p != me && FindDirect(t.dialogs, me, p).None? {
        var t' := FirstContact(t, me, p, intro);
        FirstContactFacts(t, me, p, intro);
        PartnerOfPair(t', |t.dialogs|, me, p);
        assert OpenDialogSpec(t, me, partner, intro) == (t', DialogAnswer(t', |t.dialogs|, me));
      }
    }
  }

  /** The answer is a 500 exactly when the pair's direct dialog, found or
      just created, shows a partner without a photo. */
  lemma CreateDialogRenderFails(t: Tables, me: UserId, partner: Option<int>, intro: string)
    requires LikesUnique(t.likes) && me < |t.users|
    ensures var (t', r) := OpenDialogSpec(t, me, partner, intro);
      r == DialogRenderFailed <==>
        && partner.Some? && 1 <= partner.value <= |t.users|
        && t.users[partner.value - 1].isActive && partner.value - 1 != me
        && FindDirect(t'.dialogs, me, partner.value - 1).Some?
        && PartnerPhotoMissing(t', FindDirect(t'.dialogs, me, partner.value - 1).value, me)
  {
    if partner.Some? && partner.value != 0 && 1 <= partner.value <= |t.users| {
      var p := partner.value - 1;
      if t.users[p].isActive && p != me && FindDirect(t.dialogs, me, p).None? {
        FirstContactFacts(t, me, p, intro);
      }
    }
  }

  /** Asking again for the same partner returns the same dialog and changes
      nothing, whatever intro the second request would have written. */
  lemma CreateDialogRepeat(t: Tables, me: UserId, partner: Option<int>, intro: string, intro2: string)
    requires LikesUnique(t.likes) && me < |t.users|
    ensures var (t', r) := OpenDialogSpec(t, me, partner, intro);
      me < |t'.users| && OpenDialogSpec(t', me, partner, intro2) == (t', r)
  {
    var (t', r) := OpenDialogSpec(t, me, partner, intro);
    if t' != t {
      FirstContactFacts(t, me, partner.value - 1, intro);
    }
  }

  // ---------------------------------------------------------------- messages

  const EMPTY_MESSAGE: string := "Пустое сообщение"

  /** `get_object()` over `Dialog.objects.filter(list_users=me)`: the dialog
      with this primary key, provided `me` takes part in it. */
  function OwnDialog(t: Tables, me: UserId, dialogPk: int): (r: Option<nat>)
    ensures r.Some? <==> 1 <= dialogPk <= |t.dialogs| && me in t.dialogs[dialogPk - 1].users
    ensures r.Some? ==> r.value == dialogPk - 1
  {
    match Row(dialogPk, |t.dialogs|)
    case None => None
    case Some(d) => if me in t.dialogs[d].users then Some(d) else None
  }

  datatype PostReply =
    | DialogNotFound   // 404
    | EmptyMessage     // 400 EMPTY_MESSAGE
    | Posted(id: nat)  // 201
    | PostRenderFailed // 500: `MessageSerializer` reads the sender's photo url unguarded

  /** `DialogViewSet.messages`, POST: `text` (`''` when absent) is stripped;
      nothing is stored when that leaves it empty. The stored message is
      then serialized, which raises when `me` has no photo; the message
      stays stored. */
  function PostMessageSpec(t: Tables, me: UserId, dialogPk: int, text: Option<string>): (Tables, PostReply)
    requires me < |t.users|
  {
    match OwnDialog(t, me, dialogPk)
    case None => (t, DialogNotFound)
    case Some(d) =>
      var body := Strip(if text.Some? then text.value else "");
      if body == "" then (t, EmptyMessage)
      else (PostTo(t, d, me, body), if HasPhoto(t.users[me]) then Posted(Pk(|t.messages|)) else PostRenderFailed)
  }

  method PostMessage(db: Store, me: UserId, dialogPk: int, text: Option<string>) returns (reply: PostReply)
    requires me < |db.users|
    modifies db
    ensures (db.State(), reply) == PostMessageSpec(old(db.State()), me, dialogPk, text)
  {
    var own := OwnDialog(db.State(), me, dialogPk);
    if own.None? {
      return DialogNotFound;
    }
    var d := own.value;
    var body := Strip(if text.Some? then text.value else "");
    if body == "" {
      return EmptyMessage;
    }
    var m := |db.messages|;
    db.messages := db.messages + [Message(me, body)];
    db.dialogs := db.dialogs[d := db.dialogs[d].(messages := db.dialogs[d].messages + {m})];
    reply := if HasPhoto(db.users[me]) then Posted(Pk(m)) else PostRenderFailed;
  }

  /** Posting keeps the tables valid. */
  lemma PostMessageKeepsValid(t: Tables, me: UserId, dialogPk: int, text: Option<string>)
    requires ValidTables(t) && me < |t.users|
    ensures ValidTables(PostMessageSpec(t, me, dialogPk, text).0)
  {
    var own := OwnDialog(t, me, dialogPk);
    if own.Some? {
      PostToKeepsValid(t, own.value, me, Strip(if text.Some? then text.value else ""));
    }
  }

  /** Blank text is refused with nothing stored; otherwise exactly one
      message, from `me`, with the stripped text, is appended and linked to
      that dialog alone, and the answer is a 500 exactly when `me` has no
      photo. */
  lemma PostMessageFacts(t: Tables, me: UserId, dialogPk: int, text: Option<string>)
    requires me < |t.users|
    ensures var (t', r) := PostMessageSpec(t, me, dialogPk, text);
      && (r == EmptyMessage <==> OwnDialog(t, me, dialogPk).Some? && (text.None? || AllSpace(text.value)))
      && (r == DialogNotFound <==> OwnDialog(t, me, dialogPk).None?)
      && (r == PostRenderFailed <==> OwnDialog(t, me, dialogPk).Some? && text.Some? && !AllSpace(text.value) && !HasPhoto(t.users[me]))
      && (r == EmptyMessage || r == DialogNotFound ==> t' == t)
      && (r.Posted? ==> r.id == |t'.messages|)
      && (r.Posted? || r == PostRenderFailed ==>
            && |t'.messages| == |t.messages| + 1
            && t'.messages == t.messages + [Message(me, Strip(text.value))]
            && Strip(text.value) != ""
            && t' == t.(messages := t'.messages, dialogs := t'.dialogs)
            && SameMembership(t.dialogs, t'.dialogs)
            && (forall i :: 0 <= i < |t.dialogs| ==>
                  t'.dialogs[i].messages == t.dialogs[i].messages + (if i == dialogPk - 1 then {|t.messages|} else {})))
  {
    StripEmptyIffBlank(if text.Some? then text.value else "");
    var own := OwnDialog(t, me, dialogPk);
    if own.Some? {
      PostToFacts(t, own.value, me, Strip(if text.Some? then text.value else ""));
    }
  }

  /** A message as `MessageSerializer` renders it. */
  datatype MessageView = MessageView(id: nat, sender: nat, senderName: string, text: string)

  datatype HistoryReply =
    | HistoryNotFound                      // 404
    | HistoryFailed                        // 500: a sender without a photo
    | History(messages: seq<MessageView>)  // 200

  /** Message `m` of the table was sent by a user without a photo, whose
      `sender_avatar` `MessageSerializer` cannot render. */
  predicate SenderWithoutPhoto(t: Tables, m: nat)
    requires MessagesOk(t.messages, |t.users|)
  {
    m < |t.messages| && !HasPhoto(t.users[t.messages[m].sender])
  }

  /** `DialogViewSet.messages`, GET: the dialog's messages, oldest first,
      for a dialog `me` is in. */
  function MessageHistory(t: Tables, me: UserId, dialogPk: int): HistoryReply
    requires MessagesOk(t.messages, |t.users|)
  {
    match OwnDialog(t, me, dialogPk)
    case None => HistoryNotFound
    case Some(d) =>
      AscendingFacts(t.dialogs[d].messages, |t.messages|);
      var ids := Ascending(t.dialogs[d].messages, |t.messages|);
      if exists k :: 0 <= k < |ids| && SenderWithoutPhoto(t, ids[k]) then HistoryFailed
      else History(Rendered(t, ids))
  }

  /** The messages at positions `ids`, serialized. */
  function Rendered(t: Tables, ids: seq<nat>): seq<MessageView>
    requires MessagesOk(t.messages, |t.users|) && forall k :: 0 <= k < |ids| ==> ids[k] < |t.messages|
  {
    seq(|ids|, k requires 0 <= k < |ids| => View(t, ids[k]))
  }

  /** The message at position `id`, serialized. */
  function View(t: Tables, id: nat): MessageView
    requires MessagesOk(t.messages, |t.users|) && id < |t.messages|
  {
    var msg := t.messages[id];
    MessageView(Pk(id), Pk(msg.sender), SenderName(t.users[msg.sender]), msg.text)
  }

  /** The history of a dialog `me` is in renders its messages in ascending
      id order, unless it fails. */
  lemma MessageHistoryRendered(t: Tables, me: UserId, dialogPk: int)
    requires MessagesOk(t.messages, |t.users|) && OwnDialog(t, me, dialogPk).Some?
    ensures var ids := Ascending(t.dialogs[dialogPk - 1].messages, |t.messages|);
      && (forall k :: 0 <= k < |ids| ==> ids[k] < |t.messages|)
      && (MessageHistory(t, me, dialogPk) == HistoryFailed || MessageHistory(t, me, dialogPk) == History(Rendered(t, ids)))
  {
    AscendingFacts(t.dialogs[dialogPk - 1].messages, |t.messages|);
  }

  /** The history is refused with 404 exactly when `me` is not in the
      dialog, and fails exactly when one of its messages has a sender
      without a photo. */
  lemma MessageHistoryFails(t: Tables, me: UserId, dialogPk: int)
    requires MessagesOk(t.messages, |t.users|)
    ensures MessageHistory(t, me, dialogPk) == HistoryNotFound <==> OwnDialog(t, me, dialogPk).None?
    ensures MessageHistory(t, me, dialogPk) == HistoryFailed <==>
      OwnDialog(t, me, dialogPk).Some? && exists m :: m in t.dialogs[dialogPk - 1].messages && SenderWithoutPhoto(t, m)
  {
    if OwnDialog(t, me, dialogPk).Some? {
      var s := t.dialogs[dialogPk - 1].messages;
      var ids := Ascending(s, |t.messages|);
      AscendingFacts(s, |t.messages|);
      AscendingComplete(s, |t.messages|);
      assert MessageHistory(t, me, dialogPk) == if exists k :: 0 <= k < |ids| && SenderWithoutPhoto(t, ids[k]) then HistoryFailed else History(Rendered(t, ids));
      if exists m :: m in s && SenderWithoutPhoto(t, m) {
        var m :| m in s && SenderWithoutPhoto(t, m);
        assert m in ids;
        var k :| 0 <= k < |ids| && ids[k] == m;
        assert SenderWithoutPhoto(t, ids[k]);
      }
      if exists k :: 0 <= k < |ids| && SenderWithoutPhoto(t, ids[k]) {
        var k :| 0 <= k < |ids| && SenderWithoutPhoto(t, ids[k]);
        assert ids[k] in s;
      }
    }
  }

  /** A served history lists each message linked to the dialog, and nothing else. */
  lemma MessageHistoryListed(t: Tables, me: UserId, dialogPk: int)
    requires MessagesOk(t.messages, |t.users|) && OwnDialog(t, me, dialogPk).Some?
    requires forall i, m :: 0 <= i < |t.dialogs| && m in t.dialogs[i].messages ==> m < |t.messages|
    ensures var h := MessageHistory(t, me, dialogPk);
      h.History? ==>
        forall m: nat :: m in t.dialogs[dialogPk - 1].messages <==> exists k :: 0 <= k < |h.messages| && h.messages[k].id == Pk(m)
  {
    var d := dialogPk - 1;
    var ids := Ascending(t.dialogs[d].messages, |t.messages|);
    AscendingComplete(t.dialogs[d].messages, |t.messages|);
    AscendingFacts(t.dialogs[d].messages, |t.messages|);
    MessageHistoryRendered(t, me, dialogPk);
    forall m: nat ensures m in t.dialogs[d].messages <==> m in ids {
      if m in t.dialogs[d].messages {
        assert m < |t.messages|;
      }
    }
    forall m: nat ensures m in ids <==> exists k :: 0 <= k < |Rendered(t, ids)| && Rendered(t, ids)[k].id == Pk(m) {
      RenderedNames(t, ids, m);
    }
  }

  /** Message `m` has an entry in the rendering of `ids` exactly when it is one of them. */
  lemma RenderedNames(t: Tables, ids: seq<nat>, m: nat)
    requires MessagesOk(t.messages, |t.users|) && forall k :: 0 <= k < |ids| ==> ids[k] < |t.messages|
    ensures var h := Rendered(t, ids);
      m in ids <==> exists k :: 0 <= k < |h| && h[k].id == Pk(m)
  {
    var h := Rendered(t, ids);
    if m in ids {
      var k :| 0 <= k < |ids| && ids[k] == m;
      assert h[k] == View(t, m);
    }
    if exists k :: 0 <= k < |h| && h[k].id == Pk(m) {
      var k :| 0 <= k < |h| && h[k].id == Pk(m);
      assert h[k] == View(t, ids[k]);
    }
  }

  /** A served history is in the order the messages were created. */
  lemma MessageHistoryOrdered(t: Tables, me: UserId, dialogPk: int)
    requires MessagesOk(t.messages, |t.users|) && OwnDialog(t, me, dialogPk).Some?
    ensures var h := MessageHistory(t, me, dialogPk);
      h.History? ==> forall p, q :: 0 <= p < q < |h.messages| ==> h.messages[p].id < h.messages[q].id
  {
    var ids := Ascending(t.dialogs[dialogPk - 1].messages, |t.messages|);
    AscendingFacts(t.dialogs[dialogPk - 1].messages, |t.messages|);
    MessageHistoryRendered(t, me, dialogPk);
    RenderedIds(t, ids);
  }

  /** Each entry carries the text and the sender of the message it names,
      and that sender has a photo. */
  lemma MessageHistoryRow(t: Tables, me: UserId, dialogPk: int, k: nat)
    requires MessagesOk(t.messages, |t.users|) && MessageHistory(t, me, dialogPk).History?
    requires k < |MessageHistory(t, me, dialogPk).messages|
    ensures var e := MessageHistory(t, me, dialogPk).messages[k];
      && 1 <= e.id <= |t.messages|
      && e.text == t.messages[e.id - 1].text
      && e.sender == Pk(t.messages[e.id - 1].sender)
      && e.senderName == SenderName(t.users[t.messages[e.id - 1].sender])
      && HasPhoto(t.users[t.messages[e.id - 1].sender])
  {
    var ids := Ascending(t.dialogs[dialogPk - 1].messages, |t.messages|);
    MessageHistoryRendered(t, me, dialogPk);
    assert MessageHistory(t, me, dialogPk).messages[k] == View(t, ids[k]);
    assert !SenderWithoutPhoto(t, ids[k]);
  }

  /** Each rendered message carries its own id, text and sender. */
  lemma RenderedIds(t: Tables, ids: seq<nat>)
    requires MessagesOk(t.messages, |t.users|) && forall k :: 0 <= k < |ids| ==> ids[k] < |t.messages|
    ensures var r := Rendered(t, ids);
      && |r| == |ids|
      && forall k :: 0 <= k < |r| ==>
           r[k].id == Pk(ids[k]) && r[k].text == t.messages[ids[k]].text && r[k].sender == Pk(t.messages[ids[k]].sender)
  {
  }

  // ---------------------------------------------------------------- match list

  const NEED_RATINGS: string := "Поставьте оценки интересам выше 2, чтобы начать поиск."
  const MATCH_LIMIT: int := 10

  /** A candidate as `MatchSerializer` renders it. */
  datatype MatchCard = MatchCard(id: nat, firstName: string, lastName: string, photo: Option<string>)

  datatype MatchReply =
    | NeedRatings                  // 400 NEED_RATINGS
    | MatchFailed                  // 500: a candidate without an interest vector
    | Matches(cards: seq<MatchCard>)

  /** Some rating in `me`'s interest vector is above 2 (a null vector has none). */
  predicate HasStrongInterest(u: User) {
    u.interestVector.Some? && exists k :: 0 <= k < |u.interestVector.value| && u.interestVector.value[k] > 2
  }

  function Card(u: User, id: UserId): MatchCard {
    MatchCard(Pk(id), u.firstName, u.lastName, MatchProfilePhoto(u))
  }

  /** `MatchViewSet.list`: `find_candidates(me, limit=10)` with its default
      radius and pool size, once `me` has rated something above 2. */
  function MatchListSpec(t: Tables, me: UserId, score: (seq<int>, seq<int>) -> real, dist: (Point, Point) -> real): MatchReply
    requires me < |t.users|
  {
    if !HasStrongInterest(t.users[me]) then NeedRatings
    else
      match FindCandidates(t, me, MATCH_LIMIT, DEFAULT_RADIUS_KM, DEFAULT_POOL_SIZE, score, dist)
      case None => MatchFailed
      case Some(found) =>
        ResultEligible(t, me, MATCH_LIMIT, DEFAULT_RADIUS_KM, DEFAULT_POOL_SIZE, score, dist);
        assert forall k :: 0 <= k < |found| ==> found[k] in found;
        Matches(Cards(t, found))
  }

  /** The serialized candidates, in ranking order. */
  function Cards(t: Tables, found: seq<UserId>): seq<MatchCard>
    requires forall k :: 0 <= k < |found| ==> found[k] < |t.users|
  {
    seq(|found|, k requires 0 <= k < |found| => Card(t.users[found[k]], found[k]))
  }

  /** Each card shows one of the candidates, with a photo exactly when the
      candidate has one and privacy flag 0 allows it. */
  lemma CardsFacts(t: Tables, me: UserId, found: seq<UserId>)
    requires forall k :: 0 <= k < |found| ==> found[k] < |t.users| && Eligible(t, me, found[k])
    ensures var r := Cards(t, found);
      && |r| == |found|
      && forall k :: 0 <= k < |r| ==>
           1 <= r[k].id <= |t.users| && Eligible(t, me, r[k].id - 1)
           && (r[k].photo.Some? <==>
                 (PadPrivacy(t.users[r[k].id - 1].privacy)[0] != 0
                  && t.users[r[k].id - 1].photo.Some? && t.users[r[k].id - 1].photo.value != ""))
  {
    var r := Cards(t, found);
    forall k | 0 <= k < |r| ensures r[k].id - 1 == found[k] {
    }
  }

  /** The cards as `MatchSerializer(pool, many=True)` renders them as
      written: a candidate with a stored privacy vector makes the
      serializer raise, and the list answers 500 (`None`). */
  function CardsAsWritten(t: Tables, found: seq<UserId>): Option<seq<MatchCard>>
    requires forall k :: 0 <= k < |found| ==> found[k] < |t.users|
    decreases |found|
  {
    if found == [] then Some([])
    else
      var u := t.users[found[0]];
      match MatchProfilePhotoAsWritten(u)
      case None => None
      case Some(photo) =>
        match CardsAsWritten(t, found[1..])
        case None => None
        case Some(rest) => Some([MatchCard(Pk(found[0]), u.firstName, u.lastName, photo)] + rest)
  }

  /** As written, the match list fails exactly when some candidate has a
      stored privacy vector; otherwise it renders the same cards as the
      intended serializer. */
  lemma {:induction false} CardsAsWrittenFails(t: Tables, found: seq<UserId>)
    requires UsersOk(t.users)
    requires forall k :: 0 <= k < |found| ==> found[k] < |t.users|
    ensures CardsAsWritten(t, found).None? <==> exists k :: 0 <= k < |found| && t.users[found[k]].privacy.Some?
    ensures CardsAsWritten(t, found).Some? ==> CardsAsWritten(t, found).value == Cards(t, found)
    decreases |found|
  {
    if found != [] {
      var u := t.users[found[0]];
      assert ValidUserRow(u);
      CardsAsWrittenFails(t, found[1..]);
      if exists k :: 0 <= k < |found[1..]| && t.users[found[1..][k]].privacy.Some? {
        var k :| 0 <= k < |found[1..]| && t.users[found[1..][k]].privacy.Some?;
        assert found[k + 1] == found[1..][k];
      }
      if CardsAsWritten(t, found).Some? {
        assert Cards(t, found) == [Card(u, found[0])] + Cards(t, found[1..]);
      }
    }
  }

  /** The list is refused exactly when no rating is above 2. */
  lemma MatchListRefused(t: Tables, me: UserId, score: (seq<int>, seq<int>) -> real, dist: (Point, Point) -> real)
    requires me < |t.users|
    ensures MatchListSpec(t, me, score, dist) == NeedRatings <==> !HasStrongInterest(t.users[me])
  {
  }

  /** A list that is served shows the candidates `find_candidates` ranked. */
  lemma MatchListShowsFound(t: Tables, me: UserId, score: (seq<int>, seq<int>) -> real, dist: (Point, Point) -> real)
    requires me < |t.users|
    ensures var r := MatchListSpec(t, me, score, dist);
      var f := FindCandidates(t, me, MATCH_LIMIT, DEFAULT_RADIUS_KM, DEFAULT_POOL_SIZE, score, dist);
      r.Matches? ==>
        && f.Some? && |f.value| <= MATCH_LIMIT
        && (forall k :: 0 <= k < |f.value| ==> f.value[k] < |t.users| && Eligible(t, me, f.value[k]))
        && r.cards == Cards(t, f.value)
  {
    var f := FindCandidates(t, me, MATCH_LIMIT, DEFAULT_RADIUS_KM, DEFAULT_POOL_SIZE, score, dist);
    ResultEligible(t, me, MATCH_LIMIT, DEFAULT_RADIUS_KM, DEFAULT_POOL_SIZE, score, dist);
    Bounds(t, me, MATCH_LIMIT, DEFAULT_RADIUS_KM, DEFAULT_POOL_SIZE, score, dist);
    if f.Some? {
      assert forall k :: 0 <= k < |f.value| ==> f.value[k] in f.value;
    }
  }

  /** A served list holds at most 10 eligible users, each shown with a
      photo only when their privacy flag 0 allows it. */
  lemma MatchListFacts(t: Tables, me: UserId, score: (seq<int>, seq<int>) -> real, dist: (Point, Point) -> real)
    requires me < |t.users|
    ensures var r := MatchListSpec(t, me, score, dist);
      && (r.Matches? ==> |r.cards| <= MATCH_LIMIT)
      && (r.Matches? ==> forall k :: 0 <= k < |r.cards| ==>
                 1 <= r.cards[k].id <= |t.users| && Eligible(t, me, r.cards[k].id - 1)
                 && (r.cards[k].photo.Some? <==>
                       (PadPrivacy(t.users[r.cards[k].id - 1].privacy)[0] != 0
                        && t.users[r.cards[k].id - 1].photo.Some? && t.users[r.cards[k].id - 1].photo.value != "")))
  {
    var r := MatchListSpec(t, me, score, dist);
    MatchListShowsFound(t, me, score, dist);
    if r.Matches? {
      var found := FindCandidates(t, me, MATCH_LIMIT, DEFAULT_RADIUS_KM, DEFAULT_POOL_SIZE, score, dist).value;
      CardsFacts(t, me, found);
    }
  }

  // ---------------------------------------------------------------- groups

  const GROUP_NAME_MAX: nat := 255

  datatype GroupReply =
    | GroupNotFound                       // 404
    | GroupForbidden                      // 403 {'detail': 'forbidden'}
    | GroupInvalid                        // 400: a field failed validation
    | GroupUpdated(id: nat, chatId: nat)  // 200, with the group's chat id

  /** The fields of a group edit; `None` is "not sent". DRF strips both. */
  datatype GroupEdit = GroupEdit(name: Option<string>, description: Option<string>)

  /** `CustomGroupSerializer` validation: on a full update both fields are
      required; a sent name must be non-blank, at most 255 characters and
      unused by any other group; a sent description must be non-blank. */
  predicate GroupEditValid(groups: seq<Group>, g: nat, e: GroupEdit, partial: bool) {
    && (!partial ==> e.name.Some? && e.description.Some?)
    && (e.name.Some? ==>
          var n := Strip(e.name.value);
          n != "" && |n| <= GROUP_NAME_MAX && forall k :: 0 <= k < |groups| && k != g ==> groups[k].name != n)
    && (e.description.Some? ==> Strip(e.description.value) != "")
  }

  function ApplyGroupEdit(gr: Group, e: GroupEdit): Group {
    Group(if e.name.Some? then Strip(e.name.value) else gr.name,
          if e.description.Some? then Strip(e.description.value) else gr.description)
  }

  /** `GroupViewSet.update`: the group must be one `me` actively belongs to
      (otherwise 404); the membership re-check that answers 403 cannot then
      fail; the rendered reply carries `get_chat_id`, which may create the
      group's chat. */
  function UpdateGroupSpec(t: Tables, me: UserId, groupPk: int, e: GroupEdit, partial: bool): (Tables, GroupReply) {
    match Row(groupPk, |t.groups|)
    case None => (t, GroupNotFound)
    case Some(g) =>
      if !IsActiveMember(t.members, g, me) then (t, GroupNotFound)
      else if !IsActiveMember(t.members, g, me) then (t, GroupForbidden)
      else if !GroupEditValid(t.groups, g, e, partial) then (t, GroupInvalid)
      else
        var t1 := t.(groups := t.groups[g := ApplyGroupEdit(t.groups[g], e)]);
        var (t2, chat) := GetChatIdSpec(t1, g);
        (t2, GroupUpdated(groupPk, chat))
  }

  method UpdateGroup(db: Store, me: UserId, groupPk: int, e: GroupEdit, partial: bool) returns (reply: GroupReply)
    modifies db
    ensures (db.State(), reply) == UpdateGroupSpec(old(db.State()), me, groupPk, e, partial)
  {
    var row := Row(groupPk, |db.groups|);
    if row.None? || !IsActiveMember(db.members, row.value, me) {
      return GroupNotFound;
    }
    var g := row.value;
    if !IsActiveMember(db.members, g, me) {
      return GroupForbidden;
    }
    if !GroupEditValid(db.groups, g, e, partial) {
      return GroupInvalid;
    }
    db.groups := db.groups[g := ApplyGroupEdit(db.groups[g], e)];
    var chat := GetChatId(db, g);
    reply := GroupUpdated(groupPk, chat);
  }

  /** A valid edit keeps group names unique. */
  lemma EditKeepsNamesUnique(groups: seq<Group>, g: nat, e: GroupEdit, partial: bool)
    requires GroupNamesUnique(groups) && g < |groups| && GroupEditValid(groups, g, e, partial)
    ensures GroupNamesUnique(groups[g := ApplyGroupEdit(groups[g], e)])
  {
    var gs := groups[g := ApplyGroupEdit(groups[g], e)];
    forall i, j | 0 <= i < j < |gs| ensures gs[i].name != gs[j].name {
      if i == g || j == g {
        assert e.name.Some? ==> gs[g].name == Strip(e.name.value);
      }
    }
  }

  /** The edited tables, before the chat lookup, are still valid. */
  lemma EditedTablesValid(t: Tables, g: nat, e: GroupEdit, partial: bool)
    requires ValidTables(t) && g < |t.groups| && GroupEditValid(t.groups, g, e, partial)
    ensures ValidTables(t.(groups := t.groups[g := ApplyGroupEdit(t.groups[g], e)]))
  {
    EditKeepsNamesUnique(t.groups, g, e, partial);
  }

  /** Updating a group keeps the tables valid. */
  lemma UpdateGroupKeepsValid(t: Tables, me: UserId, groupPk: int, e: GroupEdit, partial: bool)
    requires ValidTables(t)
    ensures ValidTables(UpdateGroupSpec(t, me, groupPk, e, partial).0)
  {
    var r := UpdateGroupSpec(t, me, groupPk, e, partial).1;
    if r.GroupUpdated? {
      var g := groupPk - 1;
      EditedTablesValid(t, g, e, partial);
      GetChatIdKeepsValid(t.(groups := t.groups[g := ApplyGroupEdit(t.groups[g], e)]), g);
    }
  }

  /** The update never answers 403; a non-member gets 404, an invalid edit
      400, and neither changes anything. */
  lemma UpdateGroupFacts(t: Tables, me: UserId, groupPk: int, e: GroupEdit, partial: bool)
    ensures var (t', r) := UpdateGroupSpec(t, me, groupPk, e, partial);
      && r != GroupForbidden
      && (r == GroupNotFound <==> !(1 <= groupPk <= |t.groups| && IsActiveMember(t.members, groupPk - 1, me)))
      && (r == GroupInvalid <==> 1 <= groupPk <= |t.groups| && IsActiveMember(t.members, groupPk - 1, me)
                                  && !GroupEditValid(t.groups, groupPk - 1, e, partial))
      && (!r.GroupUpdated? ==> t' == t)
  {
    var res := UpdateGroupSpec(t, me, groupPk, e, partial);
    if 1 <= groupPk <= |t.groups| && IsActiveMember(t.members, groupPk - 1, me) {
      var g := groupPk - 1;
      if GroupEditValid(t.groups, g, e, partial) {
        var t1 := t.(groups := t.groups[g := ApplyGroupEdit(t.groups[g], e)]);
        var c := GetChatIdSpec(t1, g);
        assert res == (c.0, GroupUpdated(groupPk, c.1));
      } else {
        assert res == (t, GroupInvalid);
      }
    } else {
      assert res == (t, GroupNotFound);
    }
  }

  /** A valid edit stores the stripped fields in the group's row, and the
      reply names the group and its chat. */
  lemma UpdateGroupApplied(t: Tables, me: UserId, groupPk: int, e: GroupEdit, partial: bool)
    ensures var (t', r) := UpdateGroupSpec(t, me, groupPk, e, partial);
      r.GroupUpdated? ==>
        && r.id == groupPk
        && t'.groups == t.groups[groupPk - 1 := ApplyGroupEdit(t.groups[groupPk - 1], e)]
        && 1 <= r.chatId <= |t'.dialogs| && t'.dialogs[r.chatId - 1].group == Some(groupPk - 1)
  {
    var r := UpdateGroupSpec(t, me, groupPk, e, partial).1;
    if r.GroupUpdated? {
      var g := groupPk - 1;
      var t1 := t.(groups := t.groups[g := ApplyGroupEdit(t.groups[g], e)]);
      var c := GetChatIdSpec(t1, g);
      assert UpdateGroupSpec(t, me, groupPk, e, partial) == (c.0, GroupUpdated(groupPk, c.1));
      GetChatIdFacts(t1, g);
    }
  }

  /** A member as `GroupMemberSerializer` renders it. */
  datatype MemberView = MemberView(userId: nat, username: string, firstName: string, lastName: string, isAdmin: bool)

  /** `GroupViewSet.members`: the active memberships of the group with this
      primary key in join order, whoever asks; an unknown id lists nobody.
      `None` is the 500 raised when `GroupMemberSerializer` reads the photo
      url of a member without a photo. */
  function GroupMembers(t: Tables, groupPk: int): Option<seq<MemberView>>
    requires MembersOk(t.members, |t.users|, |t.groups|)
  {
    if groupPk < 1 then Some([]) else MembersReply(t, groupPk - 1)
  }

  /** The reply for the group at row `g`. */
  function MembersReply(t: Tables, g: nat): Option<seq<MemberView>>
    requires MembersOk(t.members, |t.users|, |t.groups|)
  {
    var ms := ActiveMembersOf(t.members, g);
    ActiveMembersKnown(t.members, |t.users|, |t.groups|, g);
    if AnyWithoutPhoto(t, ms) then None else Some(MemberRows(t, ms))
  }

  /** One of the memberships `ms` names a user without a photo. */
  predicate AnyWithoutPhoto(t: Tables, ms: seq<GroupMember>)
    requires forall k :: 0 <= k < |ms| ==> ms[k].user < |t.users|
  {
    exists k :: 0 <= k < |ms| && !HasPhoto(t.users[ms[k].user])
  }

  /** The memberships `ms`, serialized. */
  function MemberRows(t: Tables, ms: seq<GroupMember>): seq<MemberView>
    requires forall k :: 0 <= k < |ms| ==> ms[k].user < |t.users|
  {
    seq(|ms|, k requires 0 <= k < |ms| =>
      var u := t.users[ms[k].user];
      MemberView(Pk(ms[k].user), u.username, u.firstName, u.lastName, ms[k].isAdmin))
  }

  /** The listed memberships name known users. */
  lemma ActiveMembersKnown(ms: seq<GroupMember>, nUsers: nat, nGroups: nat, g: nat)
    requires MembersOk(ms, nUsers, nGroups)
    ensures forall k :: 0 <= k < |ActiveMembersOf(ms, g)| ==> ActiveMembersOf(ms, g)[k].user < nUsers
  {
    var a := ActiveMembersOf(ms, g);
    forall k | 0 <= k < |a| ensures a[k].user < nUsers {
      assert a[k] in a;
      var i :| 0 <= i < |ms| && ms[i] == a[k];
    }
  }

  /** `u` is an active member of group `g` without a photo, whose
      `profile_photo` `GroupMemberSerializer` cannot render. */
  ghost predicate MemberWithoutPhoto(t: Tables, g: nat, u: nat) {
    u < |t.users| && IsActiveMember(t.members, g, u) && !HasPhoto(t.users[u])
  }

  /** The list fails exactly when some active member of the group has no
      photo. */
  lemma GroupMembersFail(t: Tables, g: nat)
    requires MembersOk(t.members, |t.users|, |t.groups|)
    ensures GroupMembers(t, Pk(g)).None? <==> exists u: nat :: MemberWithoutPhoto(t, g, u)
  {
    var ms := ActiveMembersOf(t.members, g);
    ActiveMembersKnown(t.members, |t.users|, |t.groups|, g);
    assert GroupMembers(t, Pk(g)) == MembersReply(t, g);
    if AnyWithoutPhoto(t, ms) {
      var k :| 0 <= k < |ms| && !HasPhoto(t.users[ms[k].user]);
      ActiveMemberListed(t.members, g, ms[k].user);
      assert MemberWithoutPhoto(t, g, ms[k].user);
    }
    if exists u: nat :: MemberWithoutPhoto(t, g, u) {
      var u: nat :| MemberWithoutPhoto(t, g, u);
      ActiveMemberListed(t.members, g, u);
      var k :| 0 <= k < |ms| && ms[k].user == u;
      assert !HasPhoto(t.users[ms[k].user]);
    }
  }

  /** A served list shows the group's active memberships, in order. */
  lemma GroupMembersRows(t: Tables, groupPk: int)
    requires MembersOk(t.members, |t.users|, |t.groups|) && 1 <= groupPk
    ensures var ms := ActiveMembersOf(t.members, groupPk - 1);
      var r := GroupMembers(t, groupPk);
      r.Some? ==>
        |r.value| == |ms| && forall k :: 0 <= k < |ms| ==> r.value[k].userId == Pk(ms[k].user) && r.value[k].isAdmin == ms[k].isAdmin
  {
  }

  /** An active member is listed in a served list. */
  lemma ActiveMemberShown(t: Tables, groupPk: int, u: UserId)
    requires MembersOk(t.members, |t.users|, |t.groups|) && 1 <= groupPk
    requires IsActiveMember(t.members, groupPk - 1, u) && GroupMembers(t, groupPk).Some?
    ensures var r := GroupMembers(t, groupPk).value;
      exists k :: 0 <= k < |r| && r[k].userId == Pk(u)
  {
    var ms := ActiveMembersOf(t.members, groupPk - 1);
    GroupMembersRows(t, groupPk);
    ActiveMemberListed(t.members, groupPk - 1, u);
    var k :| 0 <= k < |ms| && ms[k].user == u;
    assert GroupMembers(t, groupPk).value[k].userId == Pk(u);
  }

  /** Whoever is listed is an active member. */
  lemma ShownIsActiveMember(t: Tables, groupPk: int, u: UserId, k: nat)
    requires MembersOk(t.members, |t.users|, |t.groups|) && 1 <= groupPk && GroupMembers(t, groupPk).Some?
    requires k < |GroupMembers(t, groupPk).value| && GroupMembers(t, groupPk).value[k].userId == Pk(u)
    ensures IsActiveMember(t.members, groupPk - 1, u)
  {
    var ms := ActiveMembersOf(t.members, groupPk - 1);
    GroupMembersRows(t, groupPk);
    assert ms[k].user == u;
    ActiveMemberListed(t.members, groupPk - 1, u);
  }

  /** In a served list a user is listed exactly when they are an active member. */
  lemma GroupMemberListed(t: Tables, groupPk: int, u: UserId)
    requires MembersOk(t.members, |t.users|, |t.groups|) && 1 <= groupPk
    ensures var r := GroupMembers(t, groupPk);
      r.Some? ==> ((exists k :: 0 <= k < |r.value| && r.value[k].userId == Pk(u)) <==> IsActiveMember(t.members, groupPk - 1, u))
  {
    var r := GroupMembers(t, groupPk);
    if r.Some? {
      if IsActiveMember(t.members, groupPk - 1, u) {
        ActiveMemberShown(t, groupPk, u);
      }
      if exists k :: 0 <= k < |r.value| && r.value[k].userId == Pk(u) {
        var k :| 0 <= k < |r.value| && r.value[k].userId == Pk(u);
        ShownIsActiveMember(t, groupPk, u, k);
      }
    }
  }

  /** Each member is listed once. */
  lemma GroupMembersOnce(t: Tables, groupPk: int)
    requires MembersOk(t.members, |t.users|, |t.groups|) && 1 <= groupPk
    ensures var r := GroupMembers(t, groupPk);
      r.Some? ==> forall p, q :: 0 <= p < q < |r.value| ==> r.value[p].userId != r.value[q].userId
  {
    GroupMembersRows(t, groupPk);
    ActiveMembersDistinct(t.members, groupPk - 1, |t.users|, |t.groups|);
  }

  /** A user appears among a group's active memberships exactly when they
      are an active member of it. */
  lemma ActiveMemberListed(ms: seq<GroupMember>, g: nat, u: UserId)
    ensures IsActiveMember(ms, g, u) ==> exists k :: 0 <= k < |ActiveMembersOf(ms, g)| && ActiveMembersOf(ms, g)[k].user == u
    ensures (exists k :: 0 <= k < |ActiveMembersOf(ms, g)| && ActiveMembersOf(ms, g)[k].user == u) ==> IsActiveMember(ms, g, u)
  {
    var a := ActiveMembersOf(ms, g);
    if IsActiveMember(ms, g, u) {
      var i :| 0 <= i < |ms| && ms[i].group == g && ms[i].user == u && ms[i].isActive;
      assert ms[i] in a;
      var k :| 0 <= k < |a| && a[k] == ms[i];
      assert a[k].user == u;
    }
    if exists k :: 0 <= k < |a| && a[k].user == u {
      var k :| 0 <= k < |a| && a[k].user == u;
      assert a[k] in a;
      var i :| 0 <= i < |ms| && ms[i] == a[k];
      assert ms[i].group == g && ms[i].user == u && ms[i].isActive;
      assert IsActiveMember(ms, g, u);
    }
  }

  /** Membership rows are unique per (user, group), so one group's active
      memberships name distinct users. */
  lemma {:induction false} ActiveMembersDistinct(ms: seq<GroupMember>, g: nat, nUsers: nat, nGroups: nat)
    requires MembersOk(ms, nUsers, nGroups)
    ensures forall p, q :: 0 <= p < q < |ActiveMembersOf(ms, g)| ==> ActiveMembersOf(ms, g)[p].user != ActiveMembersOf(ms, g)[q].user
  {
    if ms != [] {
      var rest := ms[1..];
      assert MembersOk(rest, nUsers, nGroups) by {
        forall i, j | 0 <= i < j < |rest| ensures (rest[i].user, rest[i].group) != (rest[j].user, rest[j].group) {
          assert rest[i] == ms[i + 1] && rest[j] == ms[j + 1];
        }
      }
      ActiveMembersDistinct(rest, g, nUsers, nGroups);
      var r := ActiveMembersOf(ms, g);
      if ms[0].group == g && ms[0].isActive {
        var tail := ActiveMembersOf(rest, g);
        forall q | 0 <= q < |tail| ensures tail[q].user != ms[0].user {
          assert tail[q] in tail;
          var j :| 0 <= j < |rest| && rest[j] == tail[q];
          assert rest[j] == ms[j + 1];
        }
      }
    }
  }
}
