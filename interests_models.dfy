/** The interest catalogue and the users' ratings of interests. */
module InterestModels {
  import opened Common
  import opened UserModels

  const MIN_RATING: int := 1
  const MAX_RATING: int := 5

  datatype Interest = Interest(id: nat, name: string)

  /** One user's rating of one interest. */
  datatype Rating = Rating(user: UserId, interest: nat, rating: int)

  /** The catalogue as `Interest.objects.order_by('id')` returns it: ids are
      positive and strictly increasing, and names are unique. */
  predicate CatalogueOk(interests: seq<Interest>) {
    (forall i :: 0 <= i < |interests| ==> interests[i].id >= 1)
    && (forall i, j :: 0 <= i < j < |interests| ==> interests[i].id < interests[j].id)
    && (forall i, j :: 0 <= i < j < |interests| ==> interests[i].name != interests[j].name)
  }

  predicate InCatalogue(interests: seq<Interest>, id: nat) {
    exists k :: 0 <= k < |interests| && interests[k].id == id
  }

  /** Every rating lies in 1..5, refers to a known user and interest, and there
      is at most one per (user, interest). */
  predicate RatingsOk(ratings: seq<Rating>, nUsers: nat, interests: seq<Interest>) {
    (forall i :: 0 <= i < |ratings| ==>
       MIN_RATING <= ratings[i].rating <= MAX_RATING
       && ratings[i].user < nUsers && InCatalogue(interests, ratings[i].interest))
    && RatingKeysUnique(ratings)
  }

  /** unique_together ('user', 'interest') */
  predicate RatingKeysUnique(ratings: seq<Rating>) {
    forall i, j :: 0 <= i < j < |ratings| ==>
      (ratings[i].user, ratings[i].interest) != (ratings[j].user, ratings[j].interest)
  }

  /** `UserInterestRating.objects.update_or_create(user=u, interest_id=id, defaults={'rating': r})`:
      overwrite the existing row's rating, or append a new row. */
  function UpsertRating(ratings: seq<Rating>, u: UserId, id: nat, r: int): (res: seq<Rating>)
    requires RatingKeysUnique(ratings)
    ensures |res| == |ratings| || |res| == |ratings| + 1
    ensures forall k :: 0 <= k < |ratings| ==>
      res[k] == if ratings[k].user == u && ratings[k].interest == id then Rating(u, id, r) else ratings[k]
    ensures |res| == |ratings| + 1 <==> forall k :: 0 <= k < |ratings| ==> (ratings[k].user, ratings[k].interest) != (u, id)
    ensures |res| == |ratings| + 1 ==> res[|ratings|] == Rating(u, id, r)
  {
    if ratings == [] then [Rating(u, id, r)]
    else if ratings[0].user == u && ratings[0].interest == id then
      assert forall k :: 1 <= k < |ratings| ==> (ratings[k].user, ratings[k].interest) != (u, id);
      [Rating(u, id, r)] + ratings[1..]
    else [ratings[0]] + UpsertRating(ratings[1..], u, id, r)
  }

  /** An upsert keeps the (user, interest) pairs unique. */
  lemma UpsertKeepsKeysUnique(ratings: seq<Rating>, u: UserId, id: nat, r: int)
    requires RatingKeysUnique(ratings)
    ensures RatingKeysUnique(UpsertRating(ratings, u, id, r))
  {
    var res := UpsertRating(ratings, u, id, r);
    forall i, j | 0 <= i < j < |res| ensures (res[i].user, res[i].interest) != (res[j].user, res[j].interest) {
      if j < |ratings| {
        assert (res[i].user, res[i].interest) == (ratings[i].user, ratings[i].interest);
        assert (res[j].user, res[j].interest) == (ratings[j].user, ratings[j].interest);
      }
    }
  }

  /** After an upsert the pair has the new rating. */
  lemma UpsertStores(ratings: seq<Rating>, u: UserId, id: nat, r: int)
    requires RatingKeysUnique(ratings)
    ensures Rating(u, id, r) in UpsertRating(ratings, u, id, r)
  {
    var res := UpsertRating(ratings, u, id, r);
    if |res| == |ratings| {
      var k :| 0 <= k < |ratings| && (ratings[k].user, ratings[k].interest) == (u, id);
      assert res[k] == Rating(u, id, r);
    }
  }

  /** An upsert of an in-range rating for a known user and interest keeps the
      table valid, and the pair then has the new rating. */
  lemma UpsertKeepsRatingsOk(ratings: seq<Rating>, nUsers: nat, interests: seq<Interest>, u: UserId, id: nat, r: int)
    requires RatingsOk(ratings, nUsers, interests)
    requires u < nUsers && InCatalogue(interests, id) && MIN_RATING <= r <= MAX_RATING
    ensures RatingsOk(UpsertRating(ratings, u, id, r), nUsers, interests)
    ensures Rating(u, id, r) in UpsertRating(ratings, u, id, r)
  {
    var res := UpsertRating(ratings, u, id, r);
    forall i | 0 <= i < |res|
      ensures MIN_RATING <= res[i].rating <= MAX_RATING && res[i].user < nUsers && InCatalogue(interests, res[i].interest)
    {
      if i < |ratings| && (ratings[i].user, ratings[i].interest) != (u, id) {
        assert res[i] == ratings[i];
      }
    }
    UpsertKeepsKeysUnique(ratings, u, id, r);
    UpsertStores(ratings, u, id, r);
  }

  /** The rating `u` gave interest `id`, if any (the last matching row). */
  function RatingOf(ratings: seq<Rating>, u: UserId, id: nat): Option<int> {
    if ratings == [] then None
    else
      var rest := RatingOf(ratings[1..], u, id);
      if rest.Some? then rest
      else if ratings[0].user == u && ratings[0].interest == id then Some(ratings[0].rating)
      else None
  }

  /** With at most one row per (user, interest), the rating found is that row's. */
  lemma {:induction false} RatingOfUnique(ratings: seq<Rating>, nUsers: nat, interests: seq<Interest>, k: nat)
    requires RatingsOk(ratings, nUsers, interests) && k < |ratings|
    ensures RatingOf(ratings, ratings[k].user, ratings[k].interest) == Some(ratings[k].rating)
  {
    var rest := ratings[1..];
    assert RatingsOk(rest, nUsers, interests) by {
      forall i, j | 0 <= i < j < |rest|
        ensures (rest[i].user, rest[i].interest) != (rest[j].user, rest[j].interest)
      {
        assert rest[i] == ratings[i + 1] && rest[j] == ratings[j + 1];
      }
    }
    if k == 0 {
      RatingOfAbsent(rest, ratings[0].user, ratings[0].interest);
    } else {
      RatingOfUnique(rest, nUsers, interests, k - 1);
    }
  }

  lemma {:induction false} RatingOfAbsent(ratings: seq<Rating>, u: UserId, id: nat)
    requires forall k :: 0 <= k < |ratings| ==> (ratings[k].user, ratings[k].interest) != (u, id)
    ensures RatingOf(ratings, u, id) == None
  {
    if ratings != [] {
      RatingOfAbsent(ratings[1..], u, id);
    }
  }
}
