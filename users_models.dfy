/** The user, like and rejection tables of the users app. */
module UserModels {
  import opened Common

  type UserId = nat

  const NUM_INTERESTS: nat := 15
  const NUM_PRIVACY: nat := 9

  /** The declared rejection reasons and the width of the reason column. */
  const SKIP: string := "skip"
  const DISLIKE: string := "dislike"
  const REASON_CHOICES: seq<string> := [SKIP, DISLIKE]
  const REASON_MAX_LENGTH: nat := 10

  /** The widths of the user columns inherited from Django's `AbstractUser`:
      varchar(150) username and names, varchar(254) email. */
  const USERNAME_MAX_LENGTH: nat := 150
  const NAME_MAX_LENGTH: nat := 150
  const EMAIL_MAX_LENGTH: nat := 254

  /** A geographic point; distances between points are supplied by the database. */
  datatype Point = Point(lng: real, lat: real)

  /** The columns of a user row that the matching core reads or writes. `profile`
      holds the remaining plain profile columns (phone_number, date_of_birth, bio,
      tg_link, vk_link, is_can_write, is_offline) under their column names. */
  datatype User = User(
    username: string,
    firstName: string,
    lastName: string,
    email: string,
    isActive: bool,
    isSuperuser: bool,
    lastLogin: Option<int>,
    interestVector: Option<seq<int>>,
    privacy: Option<seq<int>>,
    location: Option<Point>,
    cityName: Option<string>,
    photo: Option<string>,
    minGroupSize: nat,
    maxGroupSize: nat,
    profile: map<string, Json>)

  /** A freshly created user row: the column defaults. */
  function NewUser(username: string, email: string, firstName: string, lastName: string): (u: User)
    ensures u.username == username && u.email == email
    ensures u.firstName == firstName && u.lastName == lastName
    ensures u.isActive && !u.isSuperuser && u.lastLogin == None
    ensures u.interestVector == None && u.privacy == None && u.location == None
    ensures u.photo == None && u.cityName == None
    ensures u.minGroupSize == 5 && u.maxGroupSize == 7
    ensures ValidUserRow(u)
  {
    User(username, firstName, lastName, email, true, false, None, None, None, None, None, None, 5, 7,
         map["is_can_write" := JBool(true), "is_offline" := JBool(false), "bio" := JStr("")])
  }

  /** The vector columns have fixed dimensions: 15 interest slots, 9 privacy flags. */
  predicate ValidUserRow(u: User) {
    (u.interestVector.Some? ==> |u.interestVector.value| == NUM_INTERESTS)
    && (u.privacy.Some? ==> |u.privacy.value| == NUM_PRIVACY)
  }

  /** `liked_user` was liked by `user`. */
  datatype Like = Like(user: UserId, likedUser: UserId)

  /** `rejected_user` was skipped or disliked by `user`. */
  datatype Reject = Reject(user: UserId, rejectedUser: UserId, reason: string)

  /** unique_together ('user', 'liked_user') */
  predicate LikesUnique(likes: seq<Like>) {
    forall i, j :: 0 <= i < j < |likes| ==> likes[i] != likes[j]
  }

  /** unique_together ('user', 'rejected_user', 'reason') */
  predicate RejectsUnique(rs: seq<Reject>) {
    forall i, j :: 0 <= i < j < |rs| ==> rs[i] != rs[j]
  }

  function CountLike(likes: seq<Like>, l: Like): nat {
    if likes == [] then 0 else (if likes[0] == l then 1 else 0) + CountLike(likes[1..], l)
  }

  /** `Liked.objects.get_or_create(user=a, liked_user=b)`. */
  function AddLike(likes: seq<Like>, a: UserId, b: UserId): seq<Like> {
    if Like(a, b) in likes then likes else likes + [Like(a, b)]
  }

  lemma {:induction false} CountLikeUnique(likes: seq<Like>, l: Like)
    requires LikesUnique(likes)
    ensures CountLike(likes, l) == if l in likes then 1 else 0
  {
    if likes != [] {
      assert LikesUnique(likes[1..]);
      CountLikeUnique(likes[1..], l);
      if likes[0] == l {
        assert l !in likes[1..] by {
          forall k | 0 <= k < |likes[1..]| ensures likes[1..][k] != l { assert likes[1..][k] == likes[k + 1]; }
        }
      }
    }
  }

  lemma {:induction false} CountLikeAppend(likes: seq<Like>, x: Like, l: Like)
    ensures CountLike(likes + [x], l) == CountLike(likes, l) + (if x == l then 1 else 0)
  {
    if likes == [] {
      assert likes + [x] == [x];
    } else {
      assert (likes + [x])[1..] == likes[1..] + [x];
      CountLikeAppend(likes[1..], x, l);
    }
  }

  /** get_or_create keeps the pair unique, and afterwards exactly one row holds the
      pair; running it a second time changes nothing. */
  lemma AddLikeIdempotent(likes: seq<Like>, a: UserId, b: UserId)
    requires LikesUnique(likes)
    ensures LikesUnique(AddLike(likes, a, b))
    ensures CountLike(AddLike(likes, a, b), Like(a, b)) == 1
    ensures AddLike(AddLike(likes, a, b), a, b) == AddLike(likes, a, b)
    ensures forall l :: l != Like(a, b) ==> (l in AddLike(likes, a, b) <==> l in likes)
  {
    var r := AddLike(likes, a, b);
    if Like(a, b) !in likes {
      forall i, j | 0 <= i < j < |r| ensures r[i] != r[j] {
        if j == |likes| { assert r[i] == likes[i]; }
      }
    }
    CountLikeUnique(r, Like(a, b));
  }

  /** `Rejected.objects.get_or_create(user=a, rejected_user=b, reason=reason)`. */
  function AddReject(rs: seq<Reject>, a: UserId, b: UserId, reason: string): seq<Reject> {
    if Reject(a, b, reason) in rs then rs else rs + [Reject(a, b, reason)]
  }

  /** Both reasons may be held for one pair: the key is the triple. */
  lemma SkipAndDislikeCoexist(rs: seq<Reject>, a: UserId, b: UserId)
    requires RejectsUnique(rs)
    ensures var r := AddReject(AddReject(rs, a, b, SKIP), a, b, DISLIKE);
      RejectsUnique(r) && Reject(a, b, SKIP) in r && Reject(a, b, DISLIKE) in r
  {
    var r1 := AddReject(rs, a, b, SKIP);
    assert RejectsUnique(r1) by {
      if Reject(a, b, SKIP) !in rs {
        forall i, j | 0 <= i < j < |r1| ensures r1[i] != r1[j] {
          if j == |rs| { assert r1[i] == rs[i]; }
        }
      }
    }
    var r2 := AddReject(r1, a, b, DISLIKE);
    if Reject(a, b, DISLIKE) !in r1 {
      forall i, j | 0 <= i < j < |r2| ensures r2[i] != r2[j] {
        if j == |r1| { assert r2[i] == r1[i]; }
      }
    }
  }

  /** The ids of the users `me` has liked, one per row. */
  function LikedBy(likes: seq<Like>, me: UserId): (r: seq<UserId>)
    ensures forall u :: u in r <==> Like(me, u) in likes
  {
    if likes == [] then []
    else (if likes[0].user == me then [likes[0].likedUser] else []) + LikedBy(likes[1..], me)
  }

  /** The ids of the users `me` has rejected, one per row (a user rejected for
      both reasons appears twice). */
  function RejectedBy(rs: seq<Reject>, me: UserId): (r: seq<UserId>)
    ensures forall u :: u in r <==> exists reason :: Reject(me, u, reason) in rs
  {
    if rs == [] then []
    else
      var rest := RejectedBy(rs[1..], me);
      assert forall u, reason :: Reject(me, u, reason) in rs[1..] ==> Reject(me, u, reason) in rs;
      assert forall u, reason :: Reject(me, u, reason) in rs ==> Reject(me, u, reason) == rs[0] || Reject(me, u, reason) in rs[1..];
      (if rs[0].user == me then [rs[0].rejectedUser] else []) + rest
  }

  /** `me` has rejected `u` for some reason. */
  predicate RejectedAny(rs: seq<Reject>, me: UserId, u: UserId) {
    exists k :: 0 <= k < |rs| && rs[k].user == me && rs[k].rejectedUser == u
  }
}
